/** The two measurement-series timers. Each call of
    `high_resolution_clock::now()` in the source is a parameter here: an
    `Int64` count of clock ticks (see Units.ClockPeriod). */
module Timers {
  import opened CppInt
  import opened Units
  import opened Series

  /** `duration_cast<Period>(later - earlier)` for two clock readings: the
      interval between them in ticks of `period`. An interval that does not
      run backwards is never negative. */
  function Elapsed(earlier: int, later: int, period: Ratio): (r: int)
    requires IsPeriod(period)
    ensures earlier <= later ==> 0 <= r
    ensures later < earlier ==> r <= 0
  {
    DurationCast(later - earlier, ClockPeriod, period)
  }

  /** For the named units, an interval that fits in `long long` clock ticks
      still fits once converted, so the conversion never overflows. */
  lemma ElapsedFitsNamedUnits(earlier: int, later: int, u: nat)
    requires u < |NamedUnits|
    requires IsInt64(later - earlier)
    ensures IsPeriod(NamedUnits[u])
    ensures IsInt64(Elapsed(earlier, later, NamedUnits[u]))
  {
    NamedUnitsArePeriods();
    CastNoWider(later - earlier, ClockPeriod, NamedUnits[u]);
  }

  // ---------------------------------------------------------------------
  // stopwatch_timer
  // ---------------------------------------------------------------------

  /** `stopwatch_timer`: each snapshot records the time elapsed since the
      fixed reference point `pinpoint`. */
  class StopwatchTimer {
    /** The `Period` template argument. */
    const period: Ratio
    /** `pinpoint`: the clock reading taken by the last `schedule()`. */
    var pinpoint: Int64
    /** `ts_wall_time`: one count per snapshot since the last `schedule()`. */
    var wallTimes: seq<Int64>
    /** The clock reading each of those snapshots took. */
    ghost var readings: seq<Int64>

    /** Entry i of the series is the time from `pinpoint` to snapshot i;
        like every vector, the series holds fewer than 2^63 elements. */
    ghost predicate Valid()
      reads this
    {
      IsPeriod(period) &&
      |readings| == |wallTimes| <= Int64Max &&
      forall i :: 0 <= i < |wallTimes| ==> wallTimes[i] == Elapsed(pinpoint, readings[i], period)
    }

    /** The constructor runs `schedule()`, so a fresh timer has an empty
        series. */
    constructor (period: Ratio, now: Int64)
      requires IsPeriod(period)
      ensures Valid() && this.period == period
      ensures pinpoint == now && wallTimes == [] && readings == []
    {
      this.period := period;
      new;
      Schedule(now);
    }

    /** `schedule()`: empties the series and takes a new reference point. */
    method Schedule(now: Int64)
      requires IsPeriod(period)
      modifies this
      ensures Valid()
      ensures pinpoint == now && wallTimes == [] && readings == []
    {
      wallTimes := [];
      pinpoint := now;
      readings := [];
    }

    /** `snapshot()`: appends the time from `pinpoint` to `now` and changes
        nothing else. The source's subtraction and conversion are undefined
        when they overflow `long long`; callers keep clear of that. */
    method Snapshot(now: Int64)
      requires Valid()
      requires |wallTimes| < Int64Max
      requires IsInt64(now - pinpoint)
      requires IsInt64(Elapsed(pinpoint, now, period))
      modifies this
      ensures Valid()
      ensures pinpoint == old(pinpoint)
      ensures wallTimes == old(wallTimes) + [Elapsed(pinpoint, now, period)]
      ensures readings == old(readings) + [now]
    {
      var duration := Elapsed(pinpoint, now, period);
      wallTimes := wallTimes + [duration];
      readings := readings + [now];
    }

    /** `get_wall()`: the whole series, one count per snapshot. */
    function GetWall(): (s: seq<Int64>)
      requires Valid()
      reads this
      ensures |s| == |readings|
      ensures forall i :: 0 <= i < |s| ==> s[i] == Elapsed(pinpoint, readings[i], period)
    {
      wallTimes
    }

    /** `get_wall<N>()`: 0 before the first snapshot, the time to snapshot N
        when there is one, and the time to the latest snapshot when N is
        past the end (or negative, since it is compared as a `size_t`). */
    function GetWallAt(n: int): (r: Int64)
      requires Valid() && IsInt32(n)
      reads this
      ensures |readings| == 0 ==> r == 0
      ensures 0 <= n < |readings| ==> r == Elapsed(pinpoint, readings[n], period)
      ensures |readings| > 0 && (n >= |readings| || n < 0) ==>
        r == Elapsed(pinpoint, readings[|readings| - 1], period)
    {
      WallAt(wallTimes, n)
    }
  }

  /** With clock readings that never go backwards, the stopwatch series is
      non-decreasing. */
  lemma StopwatchSeriesNonDecreasing(t: StopwatchTimer)
    requires t.Valid() && Sorted(t.readings)
    ensures Sorted(t.wallTimes)
  {
    ElapsedSeriesSorted(t.pinpoint, t.readings, t.wallTimes, t.period);
  }

  /** A series of times from a common reference point to ordered readings
      is ordered. */
  lemma {:induction false} ElapsedSeriesSorted(pinpoint: int, readings: seq<int>, series: seq<int>, period: Ratio)
    requires IsPeriod(period)
    requires |series| == |readings|
    requires forall i :: 0 <= i < |series| ==> series[i] == Elapsed(pinpoint, readings[i], period)
    requires Sorted(readings)
    ensures Sorted(series)
  {
    if |series| >= 2 {
      CastMonotone(readings[0] - pinpoint, readings[1] - pinpoint, ClockPeriod, period);
      ElapsedSeriesSorted(pinpoint, readings[1..], series[1..], period);
    }
  }

  // ---------------------------------------------------------------------
  // duration_timer
  // ---------------------------------------------------------------------

  /** The reading at which interval i of a duration timer starts: the
      reading taken by `schedule()` for the first interval, the closing
      reading of snapshot i - 1 for the others. */
  function Boundary(start: int, exits: seq<int>, i: nat): (r: int)
    requires i <= |exits|
  {
    if i == 0 then start else exits[i - 1]
  }

  /** The readings of a schedule and its snapshots, in the order they were
      taken, never go backwards. */
  ghost predicate Chronological(start: int, entries: seq<int>, exits: seq<int>)
  {
    |entries| == |exits| &&
    forall i :: 0 <= i < |entries| ==> Boundary(start, exits, i) <= entries[i] <= exits[i]
  }

  /** `duration_timer`: each snapshot records the time since the end of
      the previous snapshot (or since `schedule()`). */
  class DurationTimer {
    /** The `Period` template argument. */
    const period: Ratio
    /** `pp_prev`: where the latest recorded interval started. */
    var prev: Int64
    /** `pp_next`: where the next interval will start. */
    var next: Int64
    /** `timestamps`: one count per snapshot since the last `schedule()`. */
    var timestamps: seq<Int64>
    /** The reading taken by the last `schedule()`. */
    ghost var start: Int64
    /** The first and second reading of each snapshot since then. */
    ghost var entries: seq<Int64>
    ghost var exits: seq<Int64>

    /** Entry i of the series is the time from the start of interval i to
        the first reading of snapshot i; `pp_next` is the start of the next
        interval and `pp_prev` the start of the latest one. The series holds
        fewer than 2^63 elements. */
    ghost predicate Valid()
      reads this
    {
      IsPeriod(period) &&
      |entries| == |exits| == |timestamps| <= Int64Max &&
      next == Boundary(start, exits, |exits|) &&
      prev == Boundary(start, exits, if |exits| == 0 then 0 else |exits| - 1) &&
      forall i :: 0 <= i < |timestamps| ==>
        timestamps[i] == Elapsed(Boundary(start, exits, i), entries[i], period)
    }

    /** The constructor runs `schedule()`. */
    constructor (period: Ratio, now: Int64)
      requires IsPeriod(period)
      ensures Valid() && this.period == period
      ensures prev == next == start == now
      ensures timestamps == [] && entries == [] && exits == []
    {
      this.period := period;
      new;
      Schedule(now);
    }

    /** `schedule()`: both reference points become `now` and the series
        is emptied. */
    method Schedule(now: Int64)
      requires IsPeriod(period)
      modifies this
      ensures Valid()
      ensures prev == next == start == now
      ensures timestamps == [] && entries == [] && exits == []
    {
      prev := now;
      next := prev;
      timestamps := [];
      start := now;
      entries, exits := [], [];
    }

    /** `snapshot()` with its two clock readings: `entry` on entry, `exit`
        at the very end. The interval recorded runs from the end of the
        previous snapshot to `entry`; `pp_prev` moves to where it started
        and `pp_next` to `exit`. */
    method Snapshot(entry: Int64, exit: Int64)
      requires Valid()
      requires |timestamps| < Int64Max
      requires IsInt64(entry - next)
      requires IsInt64(Elapsed(next, entry, period))
      modifies this
      ensures Valid()
      ensures prev == old(next) && next == exit
      ensures timestamps == old(timestamps) + [Elapsed(old(next), entry, period)]
      ensures start == old(start)
      ensures entries == old(entries) + [entry] && exits == old(exits) + [exit]
    {
      var temp := entry;
      prev := next;
      var duration := Elapsed(prev, temp, period);
      timestamps := timestamps + [duration];
      next := exit;
      entries, exits := entries + [entry], exits + [exit];
    }

    /** `get()`: the whole series, one interval per snapshot. */
    function Get(): (s: seq<Int64>)
      requires Valid()
      reads this
      ensures |s| == |entries|
      ensures forall i :: 0 <= i < |s| ==> s[i] == Elapsed(Boundary(start, exits, i), entries[i], period)
    {
      timestamps
    }

    /** `get<N>()`: interval N when there is one, the latest interval when N
        is past the end or negative. The source reads out of range on an
        empty series, so a non-empty one is required. */
    function At(n: int): (r: Int64)
      requires Valid() && IsInt32(n)
      requires |timestamps| > 0
      reads this
      ensures 0 <= n < |entries| ==> r == Elapsed(Boundary(start, exits, n), entries[n], period)
      ensures n >= |entries| || n < 0 ==>
        r == Elapsed(Boundary(start, exits, |entries| - 1), entries[|entries| - 1], period)
    {
      Saturating(timestamps, n)
    }
  }

  lemma {:induction false} SumAppend(s: seq<int>, x: int)
    ensures Sum(s + [x]) == Sum(s) + x
  {
    if s != [] {
      assert (s + [x])[1..] == s[1..] + [x];
      SumAppend(s[1..], x);
    }
  }

  /** The arithmetic step of IntervalsWithinSpanUpTo: adding an interval
      of at most `gap` to a total of at most `earlier` stays within any span
      that covers both. */
  lemma SpanStep(sum: int, x: int, d: int, n: int, earlier: int, gap: int, span: int)
    requires n > 0
    requires sum * d <= earlier * n && x * d <= gap * n
    requires earlier + gap <= span
    ensures (sum + x) * d <= span * n
  {
    assert (sum + x) * d == sum * d + x * d;
    assert (earlier + gap) * n == earlier * n + gap * n;
    MulMonotone(earlier + gap, span, n);
  }

  /** The first k intervals, each at most its clock span once scaled,
      together fit in the span from the schedule to entry k - 1. */
  lemma {:induction false} IntervalsWithinSpanUpTo(
    start: int, entries: seq<int>, exits: seq<int>, series: seq<int>, d: int, n: int, k: nat)
    requires n > 0 && Chronological(start, entries, exits)
    requires |series| == |entries|
    requires forall i :: 0 <= i < |series| ==>
      series[i] * d <= (entries[i] - Boundary(start, exits, i)) * n
    requires 0 < k <= |series|
    ensures Sum(series[..k]) * d <= (entries[k - 1] - start) * n
  {
    if k == 1 {
      assert series[..1] == [series[0]];
      assert Sum([series[0]]) == series[0] + Sum([]);
    } else {
      var sum, x := Sum(series[..k - 1]), series[k - 1];
      var gap := entries[k - 1] - exits[k - 2];
      IntervalsWithinSpanUpTo(start, entries, exits, series, d, n, k - 1);
      assert Sum(series[..k]) == sum + x by {
        assert series[..k] == series[..k - 1] + [x];
        SumAppend(series[..k - 1], x);
      }
      assert entries[k - 2] <= exits[k - 2] && x * d <= gap * n by {
        assert Boundary(start, exits, k - 1) == exits[k - 2];
      }
      SpanStep(sum, x, d, n, entries[k - 2] - start, gap, entries[k - 1] - start);
    }
  }

  /** With readings that never go backwards, every interval a duration
      timer has recorded is non-negative, and together they never exceed
      the time from `schedule()` to the latest snapshot: the time spent
      inside `snapshot()` itself is not counted. In exact terms, the sum of
      the series in ticks of the unit is at most that span. */
  lemma IntervalsWithinSpan(t: DurationTimer)
    requires t.Valid() && Chronological(t.start, t.entries, t.exits)
    requires |t.timestamps| > 0
    ensures forall i :: 0 <= i < |t.timestamps| ==> 0 <= t.timestamps[i]
    ensures Sum(t.timestamps) * CastDen(ClockPeriod, t.period)
      <= (t.entries[|t.entries| - 1] - t.start) * CastNum(ClockPeriod, t.period)
  {
    IntervalSumWithinSpan(t.start, t.entries, t.exits, t.timestamps, t.period);
  }

  /** IntervalsWithinSpan on the readings and series themselves. */
  lemma IntervalSumWithinSpan(start: int, entries: seq<int>, exits: seq<int>, series: seq<int>, period: Ratio)
    requires IsPeriod(period) && Chronological(start, entries, exits)
    requires |series| == |entries| > 0
    requires forall i :: 0 <= i < |series| ==>
      series[i] == Elapsed(Boundary(start, exits, i), entries[i], period)
    ensures forall i :: 0 <= i < |series| ==> 0 <= series[i]
    ensures Sum(series) * CastDen(ClockPeriod, period) <= (entries[|entries| - 1] - start) * CastNum(ClockPeriod, period)
  {
    var n, d := CastNum(ClockPeriod, period), CastDen(ClockPeriod, period);
    forall i | 0 <= i < |series|
      ensures 0 <= series[i] && series[i] * d <= (entries[i] - Boundary(start, exits, i)) * n
    {
      assert series[i] == DurationCast(entries[i] - Boundary(start, exits, i), ClockPeriod, period);
    }
    IntervalsWithinSpanUpTo(start, entries, exits, series, d, n, |series|);
    assert series[..|series|] == series;
  }
}
