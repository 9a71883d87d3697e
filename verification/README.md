# Measurement series timers

A model of the two repeated-measurement timers of the header-only C++
library `measurement.hpp`:

- `stopwatch_timer` records, at each `snapshot()`, the time elapsed since a
  fixed reference point `pinpoint`;
- `duration_timer` records, at each `snapshot()`, the time since the end of
  the previous snapshot, and summarises the series with `median()` and
  `mean()`;

together with the duration units `nanoseconds` ... `hours` that both are
parameterised by, and the `duration_cast` they use to convert clock
intervals into those units.

Assumptions the model makes explicit:

- A clock reading (`high_resolution_clock::now()`) is a parameter of the
  operation that takes it: an integer count of clock ticks. The tick is one
  nanosecond (`Units.ClockPeriod`), as in the GCC, Clang and MSVC standard
  libraries. `duration_timer::snapshot()` reads the clock twice, so its
  model takes two readings, `entry` and `exit`.
- Every unit uses its default representation `long long`, a 64-bit
  integer (`CppInt.Int64`). `duration_cast` into such a unit is the exact
  rational rescaling truncated toward zero (`Units.DurationCast`).
- C++ integer semantics are written out (`cpp_int.dfy`):
  - conversion to `int` wraps modulo 2^32;
  - conversion to `size_t` reduces modulo 2^64;
  - integer division truncates toward zero.
- The timers are classes whose fields are the source's private members.
  Ghost fields remember the clock readings that produced the series, and
  `Valid()` ties every recorded count to them.
- The read-only queries are functions on the recorded series (`series.dfy`):
  - `get_wall<N>`, `get<N>`: the saturate-at-end read;
  - `median`;
  - `mean`.

Two behaviours follow the code and not its evident intent:

- For an even size, `median()` averages sorted elements `size/2` and
  `size/2 + 1`, so `Series.MedianAsWritten` models that pairing, including
  the out-of-range read for size 2.
- `mean()` accumulates into `int` because the initial value is the
  literal `0`, so `Series.MeanAsWritten` models that accumulator.

Both are listed under "Findings", next to corrected versions (`Series.Median`,
`Series.Mean`) with their intended properties proved.

`duration_timer::get<N>()` reads `timestamps[size() - 1]` on an empty
series, which is out of range. The model makes a non-empty series a
precondition of `Timers.DurationTimer.At`. The stopwatch's `get_wall<N>()`
returns 0 on an empty series, and its model does too.

## Model

| member | source | states |
|---|---|---|
| CppInt.ToInt32 | measurement.hpp:432 | the `int` a wider sum is stored as: in the range of `int`, congruent to the sum modulo 2^32, and unchanged when the sum already fits |
| CppInt.ToSizeT | measurement.hpp:432 | the `size_t` a signed value is converted to: below 2^64, congruent modulo 2^64, unchanged when non-negative and in range |
| CppInt.IndexConversion | measurement.hpp:363 | `N < size()` with the `int` N converted to `size_t` holds exactly when 0 <= N < size, for every size a vector can have |
| CppInt.TruncDiv | measurement.hpp:423 | integer division by a positive divisor truncates toward zero: non-negative dividends round down, negative ones round up, within one divisor of the exact quotient |
| CppInt.TruncDivMonotone | measurement.hpp:423 | truncating division by a positive divisor preserves order |
| Units.NamedUnitsArePeriods | measurement.hpp:60-76 | the six named units are positive periods, each strictly coarser than the one before it, and none finer than the clock tick |
| Units.DurationCast | measurement.hpp:349-350 | `duration_cast` gives the exact rescaled count truncated toward zero: same sign as the count, and the scaled result is within one tick of the exact value |
| Units.CastExamples | measurement.hpp:60-76 | the named units convert by their familiar factors, and fractions of a unit are dropped toward zero, negative counts included |
| Units.CastMonotone | measurement.hpp:349-350 | a longer interval never converts to fewer ticks |
| Units.CastNoWider | measurement.hpp:349-350 | casting into a unit no finer than the source unit never increases the magnitude, so a `long long` count stays a `long long` count |
| Units.CastToClockPeriodIsIdentity | measurement.hpp:61 | a cast from clock ticks into `nanoseconds` keeps the count as it is |
| Timers.Elapsed | measurement.hpp:349-350 | an interval between two clock readings, in the timer's unit, is non-negative when the readings are in order and non-positive otherwise |
| Timers.ElapsedFitsNamedUnits | measurement.hpp:349-350 | for every named unit, an interval that fits in `long long` clock ticks fits in `long long` after conversion |
| Timers.StopwatchTimer.constructor | measurement.hpp:338 | construction runs `schedule()`: an empty series referenced to the construction-time reading |
| Timers.StopwatchTimer.Schedule | measurement.hpp:343-346 | the series is emptied and `pinpoint` becomes the new reading; the invariant holds |
| Timers.StopwatchTimer.Snapshot | measurement.hpp:348-353 | appends the time from `pinpoint` to the reading and changes nothing else; the invariant is preserved |
| Timers.StopwatchTimer.GetWall | measurement.hpp:355-357 | the series has one entry per snapshot, entry i being the time from `pinpoint` to snapshot i |
| Timers.StopwatchTimer.GetWallAt | measurement.hpp:359-364 | 0 on an empty series; the time to snapshot N when N is in range; the time to the latest snapshot when N is past the end or negative |
| Timers.StopwatchSeriesNonDecreasing | measurement.hpp:348-353 | for a stopwatch whose snapshot readings never go backwards, the recorded series is non-decreasing |
| Timers.DurationTimer.constructor | measurement.hpp:379 | construction runs `schedule()`: both reference points at the construction-time reading, empty series |
| Timers.DurationTimer.Schedule | measurement.hpp:384-388 | both reference points become the new reading and the series is emptied; the invariant holds |
| Timers.DurationTimer.Snapshot | measurement.hpp:390-398 | `pp_prev` takes the old `pp_next`; the interval from it to the entry reading is appended; `pp_next` becomes the exit reading; the invariant is preserved |
| Timers.DurationTimer.Get | measurement.hpp:400-402 | the series has one entry per snapshot, entry i being the time from the end of snapshot i - 1 (or the schedule) to the entry of snapshot i |
| Timers.DurationTimer.At | measurement.hpp:404-407 | on a non-empty series: interval N when N is in range; the latest interval when N is past the end or negative |
| Timers.IntervalsWithinSpan | measurement.hpp:390-398 | for a duration timer whose readings are in order, every recorded interval is non-negative, and together they never exceed the time from the schedule to the latest snapshot's entry, since the time spent inside `snapshot()` is not counted |
| Series.Saturating | measurement.hpp:404-407 | the source's test `N < size()`, taken on N converted to `size_t`, reads element N exactly when 0 <= N < size and the last element for every N past the end or negative; either way the result is an element of the series |
| Series.WallAt | measurement.hpp:359-364 | 0 on an empty series; otherwise, through the same `size_t` comparison, an element of the series: element N when 0 <= N < size, the last one for N past the end or negative |
| Series.SaturatesAtEnd | measurement.hpp:363 | every index past the end, or negative, reads what the last index reads |
| Series.Sort | measurement.hpp:416-419 | the sorted copy is in ascending order and as long as the series |
| Series.SortPermutes | measurement.hpp:416-419 | the sorted copy is a permutation of the series |
| Series.SortOfSorted | measurement.hpp:419 | sorting an already sorted series changes nothing |
| Series.RanksOfSort | measurement.hpp:419 | sorting changes neither how many elements lie below a value nor how many lie above it |
| Series.MedianAsWrittenVersusMedian | measurement.hpp:409-426 | `median()` agrees with the conventional median for sizes 0, 1 and every odd size; it reads out of range for size 2; for an even size of at least 4, any value it returns is at least the conventional median |
| Series.MedianIsMiddle | measurement.hpp:409-426 | the conventional median has at most half of the series strictly below it and at most half strictly above it, and for an odd size it is an element of the series |
| Series.MedianAsWrittenCounterexample | measurement.hpp:422-423 | on [1, 2, 3, 10] `median()` returns 6, which has three of the four elements below it, while the median is 2 |
| Series.ThreeIntervalMedian | measurement.hpp:409-426 | on the series [10, 20, 5] both `median()` and the conventional median are 10 |
| Series.Accumulate | measurement.hpp:432 | `std::accumulate` from the literal `0` keeps its running total in the range of `int` |
| Series.AccumulateIsWrappedSum | measurement.hpp:432 | the `int` accumulation is the exact sum reduced modulo 2^32 |
| Series.AccumulateExact | measurement.hpp:432 | with non-negative entries whose sum fits in `int`, the accumulation is the exact sum |
| Series.MeanAsWrittenExact | measurement.hpp:428-433 | on non-negative entries whose sum fits in `int`, `mean()` is the arithmetic mean truncated toward zero |
| Series.MeanAsWrittenCounterexample | measurement.hpp:432 | three one-second intervals in nanoseconds: the `size_t` quotient in `mean()` is 6148914690804861440 (returned as the double 6148914690804860928) where the mean is 1000000000 |
| Series.MeanWithin | measurement.hpp:428-433 | the corrected mean lies between any lower and upper bound of the series' entries |
| Series.ThreeIntervalMean | main.cpp:82-89 | on the series [10, 20, 5] both `mean()` and the corrected mean are 11, which is 35 / 3 truncated |
| Scenarios.StopwatchScenario | main.cpp:126-136 | a millisecond stopwatch snapshotted at 1.5, 3 and 4.6 ms reads 1, 3 and 4 at indices 0 to 2, and index 5 reads the same as index 2 |
| Scenarios.DurationScenario | main.cpp:82-89 | a millisecond duration timer around work of 10, 20 and 5 ms records [10, 20, 5], with `median()` 10 and `mean()` 11 |

## Left out

- The one-shot `timer` and its four strategies (`measure_time_cplusplus`, `measure_wall_time`, `measure_cpu_time`, `measure_cpu_ticks`) are not modelled. They call operating-system clocks, CPUID and RDTSC instructions, and return `double`.
- The preprocessor platform selection at the top of the header is not modelled. It only chooses between those strategies.
- `stopwatch_timer`'s `MeasureCPU` flag and its `ts_cpu_time` vector are not modelled. Nothing in the source reads or writes either one.
- The clock itself is not modelled; its readings are parameters. Whether `high_resolution_clock` is steady depends on the platform, so ordered readings are a hypothesis of the lemmas, not an invariant of the timers.
- Floating-point representations are not modelled. The demonstration program instantiates `milliseconds<double>`, so its scenarios appear here with the default `long long` representation.
- The conversion of `median()` and `mean()` results to `double` is not modelled. The results are kept as exact integers, which differ from the `double` only above 2^53.
- Units.DurationCast: the intermediate `intmax_t` products of `duration_cast` are exact here. An overflow there, possible only for exotic periods, is not modelled.
- Series.Accumulate: the `long long` addition inside `std::accumulate` is taken as exact. The model does not flag the undefined behaviour when an entry near the `long long` maximum plus the running total overflows.
- Timers.StopwatchTimer.Snapshot and Timers.DurationTimer.Snapshot require the subtraction of readings and its conversion to fit in `long long`. The source leaves an overflow there undefined.
- Timers.StopwatchTimer.Snapshot and Timers.DurationTimer.Snapshot require the series to hold fewer than 2^63 - 1 elements, so that it stays within a vector's `max_size()`. `Valid()` carries that bound, and the saturating reads rely on it.
- Timers.DurationTimer.At requires a non-empty series. On an empty series the source reads out of range.
- `push_back` failing with `length_error` or `bad_alloc` is not modelled.
- `get()` and `get_wall()` return a copy of the vector in the source; the model returns the value.
- The deleted copy constructor and copy assignment are not modelled. Dafny class references carry no copy semantics to forbid.

## Findings

| source | as written | input that shows it | evidently intended | confidence | as-written member | corrected member |
|---|---|---|---|---|---|---|
| measurement.hpp:422-423 | even-size median averages sorted elements `size/2` and `size/2 + 1` | [1, 2, 3, 10] gives 6, with three of four elements below it; size 2 reads past the end | average of the two central elements `size/2 - 1` and `size/2` | not executed | Series.MedianAsWrittenCounterexample | Series.MedianIsMiddle |
| measurement.hpp:432 | `std::accumulate(..., 0)` keeps the running total in `int`, then divides it as `size_t` | three intervals of 1000000000 ns give the `size_t` quotient 6148914690804861440 (returned as the double 6148914690804860928) | the sum accumulated in the representation type, divided by the size | not executed | Series.MeanAsWrittenCounterexample | Series.MeanWithin |
