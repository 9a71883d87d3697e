/** The two call patterns of the demonstration program, with made-up clock
    readings in nanoseconds, and what the model says they report. */
module Scenarios {
  import opened CppInt
  import opened Units
  import opened Series
  import opened Timers

  /** A stopwatch in milliseconds, scheduled at reading 0 and snapshotted
      after 1.5 ms, 3 ms and 4.6 ms of work: the series holds the truncated
      cumulative times, and index 5 reads what index 2 reads. */
  method StopwatchScenario() returns (first: Int64, second: Int64, third: Int64, past: Int64)
    ensures [first, second, third] == [1, 3, 4]
    ensures past == third
  {
    var timer := new StopwatchTimer(Milliseconds, 0);
    timer.Snapshot(1_500_000);
    timer.Snapshot(3_000_000);
    timer.Snapshot(4_600_000);
    assert timer.wallTimes == [1, 3, 4];
    first := timer.GetWallAt(0);
    second := timer.GetWallAt(1);
    third := timer.GetWallAt(2);
    past := timer.GetWallAt(5);
  }

  /** A duration timer in milliseconds, scheduled at reading 0; work of
      10 ms, 20 ms and 5 ms separates three snapshots, each of which spends
      a few hundred nanoseconds between its two readings. The series is
      [10, 20, 5], its median 10 and its mean 11 (35 / 3 truncated). */
  method DurationScenario() returns (series: seq<Int64>, median: Result<int>, mean: int)
    ensures series == [10, 20, 5]
    ensures median == Ok(10)
    ensures mean == 11
  {
    var timer := new DurationTimer(Milliseconds, 0);
    timer.Snapshot(10_000_000, 10_000_400);
    timer.Snapshot(30_000_400, 30_000_700);
    timer.Snapshot(35_000_700, 35_001_000);
    series := timer.Get();
    assert series == [10, 20, 5];
    ThreeIntervalMedian(series);
    ThreeIntervalMean(series);
    median := MedianAsWritten(series);
    mean := MeanAsWritten(series);
  }
}
