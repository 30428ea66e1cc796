# PerformanceBenchmark in Dafny

A model of the `PerformanceBenchmark` class of the C++ performance-benchmark library,
with proofs about its behaviour. The class keeps a registry of named code blocks and an
iteration count, default 1. A benchmark run executes every registered block that many
times and records the mean duration of each block. Accessors return a recorded mean in
seconds, or truncated to whole seconds, milliseconds, microseconds or nanoseconds. The
report compares every block with the fastest one.

The project has three modules:

- `Measurement` (`measurement.dfy`) covers durations as exact non-negative reals in
  seconds, their sum and mean, and truncation to whole units. It also defines
  `Averages`, the table of means a run produces, with its lemmas.
- `Reporting` (`report.dfy`) covers the logical content of the report. The fastest block
  is found by a strict-minimum scan. Each entry has a speed percentage, and the text is
  built from the entries, including the decimal text of an `int`.
- `Benchmark` (`benchmark.dfy`) holds the class `PerformanceBenchmark<Block>`. Its fields
  are `codeBlocks`, `elapsedTimes` and `iterationCount`, and its methods update them in
  place. The system clock is replaced by a `DurationSource`, a sequence of readings that
  runs consume one at a time.

The class keeps the invariant `Valid()`: the iteration count is positive, and only
registered code blocks have results.

The order in which `std::unordered_map` visits its keys is not specified. Every operation
that iterates a table therefore takes that order as a parameter, `order`, a sequence that
lists each key exactly once. Which block counts as the fastest when times are tied
depends on this order, as in the C++ code.

The loops of the C++ are split into methods of the class:
- The body of the outer loop of `runBenchmark` is MeasureCodeBlock, and its inner loop is SumElapsedTimes.
- The two loops of `getResult` are FindFastest and AppendEntries, and the body of the second loop is AppendEntry.

The computation and the order of the appends follow the C++.

## Model

| member | source | states |
|---|---|---|
| Benchmark.PerformanceBenchmark.constructor | PerformanceBenchmark/Sources/PerformanceBenchmark.hpp:61 | a new benchmark has no code blocks, no results and iteration count 1, and satisfies the invariant |
| Benchmark.PerformanceBenchmark.IsExistCodeName | PerformanceBenchmark/Sources/PerformanceBenchmark.hpp:63-66 | true exactly when the name is a key of the registry |
| Benchmark.PerformanceBenchmark.GetCodeBlockCount | PerformanceBenchmark/Sources/PerformanceBenchmark.hpp:68-71 | the number of distinct registered names |
| Benchmark.PerformanceBenchmark.GetIterationCount | PerformanceBenchmark/Sources/PerformanceBenchmark.hpp:73-76 | the iteration count, which is positive whenever the invariant holds |
| Benchmark.PerformanceBenchmark.AddCodeBlock | PerformanceBenchmark/Sources/PerformanceBenchmark.hpp:78-82 | requires an unregistered name; afterwards the name maps to the block, the count is one higher, every other name's registration is unchanged, and the results and iteration count are unchanged |
| Benchmark.PerformanceBenchmark.SetIterationCount | PerformanceBenchmark/Sources/PerformanceBenchmark.hpp:84-88 | requires a positive count and sets it; neither table changes, so earlier results are not recomputed |
| Benchmark.DurationSource.constructor | PerformanceBenchmark/Sources/PerformanceBenchmark.hpp:164-171 | stands for the clock: a supply of the given readings, none of them taken yet |
| Benchmark.PerformanceBenchmark.CalcElapsedTime | PerformanceBenchmark/Sources/PerformanceBenchmark.hpp:164-171 | one run of a block takes exactly one reading of the duration source, the next one |
| Benchmark.PerformanceBenchmark.GetAverageTime | PerformanceBenchmark/Sources/PerformanceBenchmark.hpp:173-176 | the average is the value that, multiplied by the iteration count, gives the sum |
| Benchmark.PerformanceBenchmark.SumElapsedTimes | PerformanceBenchmark/Sources/PerformanceBenchmark.hpp:93-98 | one run before the loop plus iterationCount - 1 runs in it take exactly iterationCount readings, and the result is the sum of exactly those readings |
| Benchmark.PerformanceBenchmark.MeasureCodeBlock | PerformanceBenchmark/Sources/PerformanceBenchmark.hpp:92-101 | one pass of the outer loop: takes exactly iterationCount readings and sets the block's entry to the mean of exactly those readings, leaving every other entry, the registry and the count unchanged |
| Benchmark.PerformanceBenchmark.RunBenchmark | PerformanceBenchmark/Sources/PerformanceBenchmark.hpp:90-102 | visits each registered block once, takes iterationCount readings per block, and sets the result table to the table of window means (earlier results are overwritten); afterwards the result keys equal the registry keys, the registry and count are unchanged, and the invariant holds |
| Benchmark.PerformanceBenchmark.GetElapsedTime | PerformanceBenchmark/Sources/PerformanceBenchmark.hpp:104-108 | requires a registered and measured name and returns its recorded mean in seconds |
| Benchmark.PerformanceBenchmark.ElapsedTimeIsMean | PerformanceBenchmark/Sources/PerformanceBenchmark.hpp:90-108 | after a run, the seconds reported for the i-th block in the order are the mean of the i-th window of readings |
| Benchmark.PerformanceBenchmark.GetSeconds | PerformanceBenchmark/Sources/PerformanceBenchmark.hpp:110-114 | the non-negative whole number r with r <= seconds < r + 1 |
| Benchmark.PerformanceBenchmark.GetMilliseconds | PerformanceBenchmark/Sources/PerformanceBenchmark.hpp:116-120 | the non-negative whole number r with r <= seconds * 10^3 < r + 1 |
| Benchmark.PerformanceBenchmark.GetMicroseconds | PerformanceBenchmark/Sources/PerformanceBenchmark.hpp:122-126 | the non-negative whole number r with r <= seconds * 10^6 < r + 1 |
| Benchmark.PerformanceBenchmark.GetNanoseconds | PerformanceBenchmark/Sources/PerformanceBenchmark.hpp:128-132 | the non-negative whole number r with r <= seconds * 10^9 < r + 1 |
| Benchmark.PerformanceBenchmark.UnitsAgree | PerformanceBenchmark/Sources/PerformanceBenchmark.hpp:110-132 | each integer accessor equals the next finer one divided by 1000, so the four units agree |
| Benchmark.PerformanceBenchmark.FindFastest | PerformanceBenchmark/Sources/PerformanceBenchmark.hpp:136-145 | with no results there is no minimum; otherwise it returns the name and time at the first index whose time is no greater than any and strictly smaller than every earlier one |
| Benchmark.PerformanceBenchmark.AppendEntry | PerformanceBenchmark/Sources/PerformanceBenchmark.hpp:148-154 | appends to the text exactly the rendering of the block's entry: header with the fastest mark, speed, elapsed time |
| Benchmark.PerformanceBenchmark.AppendEntries | PerformanceBenchmark/Sources/PerformanceBenchmark.hpp:147-155 | the text is the rendering of one entry per block, in order, each marked and scaled against the given fastest name and minimum |
| Benchmark.PerformanceBenchmark.GetResult | PerformanceBenchmark/Sources/PerformanceBenchmark.hpp:134-158 | the text is the rendering of the report of the results in the given order, and it is empty exactly when there are no results |
| Measurement.Sum | PerformanceBenchmark/Sources/PerformanceBenchmark.hpp:94-98 | the running sum `sumTime`: the readings added from the left, first reading first; SumExtend and SumBounds state its properties |
| Measurement.Mean | PerformanceBenchmark/Sources/PerformanceBenchmark.hpp:173-176 | the mean, multiplied by the number of durations, is their sum |
| Measurement.MeanBounds | PerformanceBenchmark/Sources/PerformanceBenchmark.hpp:90-102 | the mean of durations between lo and hi is itself between lo and hi |
| Measurement.MeanOfConstant | PerformanceBenchmark/Sources/PerformanceBenchmark.hpp:90-102 | when every duration is d, the mean is d |
| Measurement.MeanUnique | PerformanceBenchmark/Sources/PerformanceBenchmark.hpp:173-176 | the mean is the only value that, multiplied by the number of durations, gives their sum |
| Measurement.SumExtend | PerformanceBenchmark/Sources/PerformanceBenchmark.hpp:96-98 | adding one more reading to the running sum is the sum over one more reading |
| Measurement.SumBounds | PerformanceBenchmark/Sources/PerformanceBenchmark.hpp:93-98 | a sum of n durations between lo and hi lies between n * lo and n * hi |
| Measurement.Trunc | PerformanceBenchmark/Sources/PerformanceBenchmark.hpp:149 | conversion to an integer truncates toward zero, for negative and non-negative values |
| Measurement.ToUnits | PerformanceBenchmark/Sources/PerformanceBenchmark.hpp:110-132 | duration_cast to a unit: the non-negative whole number of ticks r with r <= d * ticks-per-second < r + 1 |
| Measurement.ToUnitsCoarsen | PerformanceBenchmark/Sources/PerformanceBenchmark.hpp:110-132 | the count of a finer unit divided by the ratio of the units is the count of the coarser unit |
| Measurement.Window | PerformanceBenchmark/Sources/PerformanceBenchmark.hpp:92-98 | the readings of the i-th block of a run: n consecutive readings from start + i * n |
| Measurement.AveragesStep | PerformanceBenchmark/Sources/PerformanceBenchmark.hpp:92-101 | recording the i-th block's window mean under its name, on top of the earlier results, is the table after visiting one more block |
| Measurement.Averages | PerformanceBenchmark/Sources/PerformanceBenchmark.hpp:92-101 | the result table after visiting the first count blocks of the order, each entry the mean of that block's window, a later entry for a name overwriting an earlier one; AveragesAt, AveragesKeys and AveragesOfConstant state its properties |
| Measurement.AveragesAt | PerformanceBenchmark/Sources/PerformanceBenchmark.hpp:92-101 | with distinct names, once the i-th name has been visited its entry is the mean of the i-th window |
| Measurement.AveragesKeys | PerformanceBenchmark/Sources/PerformanceBenchmark.hpp:92-101 | the keys of the table of means are exactly the names visited so far |
| Measurement.AveragesOfConstant | PerformanceBenchmark/Sources/PerformanceBenchmark.hpp:90-102 | when every reading of a run is d, every block's recorded mean is d, whatever the iteration count |
| Reporting.Values | PerformanceBenchmark/Sources/PerformanceBenchmark.hpp:140-141 | the times of the names, one per name, in the order of the names |
| Reporting.FirstMin | PerformanceBenchmark/Sources/PerformanceBenchmark.hpp:140-145 | the index the strict `>` scan keeps: a minimum that no earlier element equals |
| Reporting.FirstMinimumUnique | PerformanceBenchmark/Sources/PerformanceBenchmark.hpp:140-145 | only one index is such a first minimum |
| Reporting.FirstMinExtend | PerformanceBenchmark/Sources/PerformanceBenchmark.hpp:141-144 | one more step of the scan replaces the minimum so far exactly when it is strictly greater than the new time |
| Reporting.Percent | PerformanceBenchmark/Sources/PerformanceBenchmark.hpp:149 | `(int)(minValue / secondsTime * 100)`: for a non-negative minimum, the non-negative whole number p with p <= min / t * 100 < p + 1 |
| Reporting.PercentRange | PerformanceBenchmark/Sources/PerformanceBenchmark.hpp:149 | for 0 < min <= t, the truncated percentage min / t * 100 lies in [0, 100] and is 100 exactly when t is the minimum |
| Reporting.RatioAtMostOne | PerformanceBenchmark/Sources/PerformanceBenchmark.hpp:149 | min / t lies in (0, 1] and is 1 exactly when min == t |
| Reporting.EntryOf | PerformanceBenchmark/Sources/PerformanceBenchmark.hpp:148-154 | the content of one block's entry: its name, the fastest mark exactly when it is the fastest name, its percentage of the minimum and its seconds; ReportEntries and ReportFastest state its properties |
| Reporting.Entries | PerformanceBenchmark/Sources/PerformanceBenchmark.hpp:147-155 | the entries of the first count names, one per name, in order |
| Reporting.Report | PerformanceBenchmark/Sources/PerformanceBenchmark.hpp:134-158 | the record-level content of the report: one entry per result, in order, measured against the first strict minimum of the scan |
| Reporting.EntriesAt | PerformanceBenchmark/Sources/PerformanceBenchmark.hpp:147-155 | the i-th entry is the i-th name's entry, and there is one entry per name |
| Reporting.ReportEntries | PerformanceBenchmark/Sources/PerformanceBenchmark.hpp:134-158 | one entry per name, in order, with that name's time and the percentage of the smallest time, in [0, 100], and 100 exactly for the names with the smallest time |
| Reporting.ReportFastest | PerformanceBenchmark/Sources/PerformanceBenchmark.hpp:140-152 | an entry is marked fastest exactly when its name is the first minimum in the order, and a fastest entry has 100 percent |
| Reporting.ReportOneFastest | PerformanceBenchmark/Sources/PerformanceBenchmark.hpp:140-152 | with at least one result, exactly one entry is marked fastest |
| Reporting.ThreeBlocks | PerformanceBenchmark/Sources/PerformanceBenchmark.hpp:134-158 | with times 10, 20 and 30 ms the report is: fastest at 100, then 50 and 33 percent |
| Reporting.RenderEntry | PerformanceBenchmark/Sources/PerformanceBenchmark.hpp:151-154 | the text of one entry, which starts with the header `[name] `, then the fastest mark, the speed line and the elapsed-time line |
| Reporting.Render | PerformanceBenchmark/Sources/PerformanceBenchmark.hpp:147-155 | the text is empty exactly when there are no entries |
| Reporting.RenderExtend | PerformanceBenchmark/Sources/PerformanceBenchmark.hpp:151-154 | rendering one more entry appends that entry's text |
| Reporting.NatToString | PerformanceBenchmark/Sources/PerformanceBenchmark.hpp:153 | the decimal text of a natural number is non-empty, all digits, with no leading zero |
| Reporting.IntToString | PerformanceBenchmark/Sources/PerformanceBenchmark.hpp:153 | `std::to_string` of an int: non-empty and starting with '-' exactly when the int is negative; IntToStringRoundTrip proves it denotes the int |
| Reporting.ParseNatToString | PerformanceBenchmark/Sources/PerformanceBenchmark.hpp:153 | reading the digits of n back gives n |
| Reporting.IntToStringRoundTrip | PerformanceBenchmark/Sources/PerformanceBenchmark.hpp:153 | std::to_string of the percentage is a decimal numeral, signed exactly when negative, that denotes the percentage |

## Left out

- Reading `system_clock` and calling the code block's function pointer (`calcElapsedTime`) are real-time I/O. The durations are instead supplied as the readings of a `DurationSource`, consumed one per run. Code blocks are opaque values of a type parameter.
- DurationSource readings are non-negative. `system_clock` is not steady and can step backwards between the two `now()` calls, and the negative durations that would give are not modelled. The sum, the mean and the truncation toward zero of a negative mean (a mean of -0.5 s gives 0 seconds and -500 milliseconds) are not covered.
- IEEE-754 double rounding is not modelled. The duration sum, the division by the iteration count, `duration_cast` and the percentage cast are exact real arithmetic followed by explicit truncation.
- The `DBL_MAX` sentinel of the minimum scan becomes `None` of an `Option`. In the model, a time equal to or above `DBL_MAX` is still taken as the first minimum. In the C++ it would not replace the sentinel.
- GetResult requires every recorded time to be positive. Dividing by a zero duration yields NaN, and casting NaN to `int` is undefined behaviour.
- GetResult takes the formatter of the elapsed seconds as a parameter, `formatSeconds`. The layout of `std::to_string(double)` belongs to the C++ library and is not modelled. `std::to_string(int)` of the percentage is modelled.
- The hash iteration order of `std::unordered_map` is the `order` parameter of RunBenchmark and GetResult, which must list each key exactly once.
- Each C++ `assert` is a precondition. The build where `NDEBUG` switches the asserts off is not modelled.
- GetElapsedTime, GetSeconds, GetMilliseconds, GetMicroseconds, GetNanoseconds: these also require a recorded result for the name. In the C++, `elapsedTimes.at` throws `std::out_of_range` for a registered name that has no result yet.
- GetSeconds, GetMilliseconds, GetMicroseconds, GetNanoseconds: the conversion is to unbounded integers. Overflow of the `long long` tick count is not modelled.
- `std::size_t` wrap-around of the iteration count and the code-block count is not modelled. Both are unbounded naturals.
- `Examples.cpp` is a console driver whose code blocks only consume time. It is not part of this model.
