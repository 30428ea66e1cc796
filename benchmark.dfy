/**
 * The benchmark runner: a registry of named code blocks, an iteration count, and the table
 * of measured mean durations that a run fills in.
 *
 * The system clock is replaced by a DurationSource, a supply of durations the runs are
 * taken to last. The hash-table iteration order of the two registries is a parameter:
 * a sequence that lists every key once, in the order the table happens to visit them.
 */
module Benchmark {
  import opened Measurement
  import opened Reporting

  datatype Option<T> = None | Some(value: T)

  /** order lists every key of the set exactly once. */
  predicate Enumerates(order: seq<string>, keys: set<string>)
  {
    && Distinct(order)
    && (forall i | 0 <= i < |order| :: order[i] in keys)
    && (forall k | k in keys :: k in order)
  }

  /**
   * The durations the code blocks take when they are run, one reading per run: the
   * readings are taken in order, and used counts how many have been taken so far.
   */
  class DurationSource {
    const readings: seq<Duration>
    var used: nat

    ghost predicate Valid()
      reads this
    {
      used <= |readings|
    }

    constructor (readings: seq<Duration>)
      ensures Valid()
      ensures this.readings == readings && used == 0
    {
      this.readings := readings;
      used := 0;
    }
  }

  class PerformanceBenchmark<Block> {
    var codeBlocks: map<string, Block>
    var elapsedTimes: map<string, Duration>
    var iterationCount: nat

    /** The iteration count is positive, and only registered code blocks have results. */
    ghost predicate Valid()
      reads this
    {
      && 0 < iterationCount
      && elapsedTimes.Keys <= codeBlocks.Keys
    }

    /** A new benchmark has no code blocks, no results, and runs every block once. */
    constructor ()
      ensures Valid()
      ensures codeBlocks == map[] && elapsedTimes == map[] && iterationCount == 1
      ensures GetCodeBlockCount() == 0 && GetIterationCount() == 1
    {
      codeBlocks := map[];
      elapsedTimes := map[];
      iterationCount := 1;
    }

    /** Whether a code block is registered under the name. */
    function IsExistCodeName(codeName: string): (b: bool)
      reads this
      ensures b <==> codeName in codeBlocks.Keys
    {
      codeName in codeBlocks
    }

    /** The number of registered code blocks: the number of distinct registered names. */
    function GetCodeBlockCount(): (n: nat)
      reads this
      ensures n == |codeBlocks.Keys|
    {
      |codeBlocks|
    }

    function GetIterationCount(): (n: nat)
      reads this
      ensures Valid() ==> 0 < n
      ensures n == iterationCount
    {
      iterationCount
    }

    /**
     * Registers a code block under a name that is not registered yet. Only that name's
     * entry is added; the results and the iteration count stay as they were.
     */
    method AddCodeBlock(codeName: string, codeBlock: Block)
      requires Valid()
      requires !IsExistCodeName(codeName)
      modifies this
      ensures Valid()
      ensures codeBlocks == old(codeBlocks)[codeName := codeBlock]
      ensures IsExistCodeName(codeName)
      ensures GetCodeBlockCount() == old(GetCodeBlockCount()) + 1
      ensures forall name | name != codeName :: IsExistCodeName(name) == old(IsExistCodeName(name))
      ensures elapsedTimes == old(elapsedTimes) && iterationCount == old(iterationCount)
    {
      codeBlocks := codeBlocks[codeName := codeBlock];
    }

    /**
     * Sets how many times a run executes each code block. Results already measured are
     * not recomputed, and the registry is not touched.
     */
    method SetIterationCount(iterationCount: nat)
      requires Valid()
      requires 0 < iterationCount
      modifies this
      ensures Valid()
      ensures this.iterationCount == iterationCount
      ensures codeBlocks == old(codeBlocks) && elapsedTimes == old(elapsedTimes)
    {
      this.iterationCount := iterationCount;
    }

    /**
     * Runs the code block once and returns how long it took: the next reading of the
     * duration source.
     */
    method CalcElapsedTime(codeBlock: Block, source: DurationSource) returns (elapsed: Duration)
      requires source.Valid() && source.used < |source.readings|
      modifies source
      ensures source.Valid() && source.used == old(source.used) + 1
      ensures elapsed == source.readings[old(source.used)]
    {
      elapsed := source.readings[source.used];
      source.used := source.used + 1;
    }

    /** The mean of iterationCount runs that took sumTime seconds in all. */
    function GetAverageTime(sumTime: Duration): (average: Duration)
      reads this
      requires Valid()
      ensures average * iterationCount as real == sumTime
    {
      sumTime / iterationCount as real
    }

    /**
     * The inner loop of a run: runs one code block iterationCount times, once before the
     * loop and iterationCount - 1 times in it, and adds up the durations. Exactly
     * iterationCount readings are taken.
     */
    method SumElapsedTimes(codeBlock: Block, source: DurationSource) returns (sumTime: Duration)
      requires Valid() && source.Valid()
      requires source.used + iterationCount <= |source.readings|
      modifies source
      ensures source.Valid()
      ensures source.used == old(source.used) + iterationCount
      ensures sumTime == Sum(source.readings[old(source.used)..source.used])
    {
      ghost var base := source.used;
      var elapsedTime := CalcElapsedTime(codeBlock, source);
      sumTime := elapsedTime;
      assert source.readings[base..source.used] == [elapsedTime];
      var j := 1;
      while j < iterationCount
        invariant source.Valid()
        invariant 1 <= j <= iterationCount
        invariant source.used == base + j
        invariant sumTime == Sum(source.readings[base..source.used])
      {
        SumExtend(source.readings, base, source.used);
        var elapsed := CalcElapsedTime(codeBlock, source);
        sumTime := sumTime + elapsed;
        j := j + 1;
      }
    }

    /**
     * The body of the outer loop of a run: runs a registered code block iterationCount
     * times and records, under its name, the mean of the readings taken, overwriting any
     * earlier result for it.
     */
    method MeasureCodeBlock(codeName: string, source: DurationSource)
      requires Valid() && source.Valid()
      requires codeName in codeBlocks
      requires source.used + iterationCount <= |source.readings|
      modifies this, source
      ensures Valid() && source.Valid()
      ensures codeBlocks == old(codeBlocks) && iterationCount == old(iterationCount)
      ensures source.used == old(source.used) + iterationCount
      ensures elapsedTimes == old(elapsedTimes)[codeName := Mean(source.readings[old(source.used)..source.used])]
    {
      ghost var base := source.used;
      var sumTime := SumElapsedTimes(codeBlocks[codeName], source);
      MeanUnique(source.readings[base..source.used], GetAverageTime(sumTime));
      elapsedTimes := elapsedTimes[codeName := GetAverageTime(sumTime)];
    }

    /**
     * Runs every registered code block iterationCount times, one block after the other in
     * the given iteration order, and records for each the mean of its run durations,
     * overwriting any earlier result. Exactly iterationCount readings are taken per block:
     * the i-th block in the order gets the i-th window of iterationCount readings.
     */
    method RunBenchmark(order: seq<string>, source: DurationSource)
      requires Valid() && source.Valid()
      requires Enumerates(order, codeBlocks.Keys)
      requires source.used + |order| * iterationCount <= |source.readings|
      modifies this, source
      ensures Valid() && source.Valid()
      ensures codeBlocks == old(codeBlocks) && iterationCount == old(iterationCount)
      ensures source.used == old(source.used) + |order| * iterationCount
      ensures elapsedTimes == Averages(order, source.readings, old(source.used), iterationCount, |order|)
      ensures elapsedTimes.Keys == codeBlocks.Keys
    {
      ghost var start := source.used;
      ghost var before := elapsedTimes;
      var n := iterationCount;
      var i := 0;
      while i < |order|
        invariant 0 <= i <= |order|
        invariant Valid() && source.Valid()
        invariant codeBlocks == old(codeBlocks) && iterationCount == n
        invariant source.used == start + i * n
        invariant elapsedTimes == before + Averages(order, source.readings, start, n, i)
      {
        var codeName := order[i];
        WindowFits(i, |order|, n);
        MulSucc(i, n);
        MeasureCodeBlock(codeName, source);
        assert source.readings[start + i * n .. source.used] == Window(source.readings, start, n, i);
        AveragesStep(before, order, source.readings, start, n, i);
        i := i + 1;
      }
      AveragesKeys(order, source.readings, start, n, |order|);
      UnionCovered(before, Averages(order, source.readings, start, n, |order|));
    }

    /** The mean duration, in seconds, measured for a registered and measured code block. */
    function GetElapsedTime(codeName: string): (seconds: Duration)
      reads this
      requires Valid()
      requires IsExistCodeName(codeName) && codeName in elapsedTimes
      ensures seconds == elapsedTimes[codeName]
    {
      elapsedTimes[codeName]
    }

    /**
     * After a run over the given order, the time reported for the i-th code block is the
     * mean of the i-th window of iterationCount readings.
     */
    lemma ElapsedTimeIsMean(order: seq<string>, readings: seq<Duration>, start: nat, i: nat)
      requires Valid()
      requires Enumerates(order, codeBlocks.Keys)
      requires start + |order| * iterationCount <= |readings|
      requires elapsedTimes == Averages(order, readings, start, iterationCount, |order|)
      requires i < |order|
      ensures IsExistCodeName(order[i]) && order[i] in elapsedTimes
      ensures (WindowFits(i, |order|, iterationCount);
               GetElapsedTime(order[i]) == Mean(Window(readings, start, iterationCount, i)))
    {
      WindowFits(i, |order|, iterationCount);
      AveragesAt(order, readings, start, iterationCount, |order|, i);
    }

    /** The measured mean in whole seconds, truncated. */
    function GetSeconds(codeName: string): (r: int)
      reads this
      requires Valid()
      requires IsExistCodeName(codeName) && codeName in elapsedTimes
      ensures 0 <= r
      ensures r as real <= GetElapsedTime(codeName) < r as real + 1.0
    {
      ToUnits(elapsedTimes[codeName], 1)
    }

    /** The measured mean in whole milliseconds, truncated. */
    function GetMilliseconds(codeName: string): (r: int)
      reads this
      requires Valid()
      requires IsExistCodeName(codeName) && codeName in elapsedTimes
      ensures 0 <= r
      ensures r as real <= GetElapsedTime(codeName) * 1000.0 < r as real + 1.0
    {
      ToUnits(elapsedTimes[codeName], 1000)
    }

    /** The measured mean in whole microseconds, truncated. */
    function GetMicroseconds(codeName: string): (r: int)
      reads this
      requires Valid()
      requires IsExistCodeName(codeName) && codeName in elapsedTimes
      ensures 0 <= r
      ensures r as real <= GetElapsedTime(codeName) * 1000000.0 < r as real + 1.0
    {
      ToUnits(elapsedTimes[codeName], 1000000)
    }

    /** The measured mean in whole nanoseconds, truncated. */
    function GetNanoseconds(codeName: string): (r: int)
      reads this
      requires Valid()
      requires IsExistCodeName(codeName) && codeName in elapsedTimes
      ensures 0 <= r
      ensures r as real <= GetElapsedTime(codeName) * 1000000000.0 < r as real + 1.0
    {
      ToUnits(elapsedTimes[codeName], 1000000000)
    }

    /**
     * The four integer accessors agree: each unit is the next finer one divided by 1000,
     * truncated.
     */
    lemma UnitsAgree(codeName: string)
      requires Valid()
      requires IsExistCodeName(codeName) && codeName in elapsedTimes
      ensures GetNanoseconds(codeName) / 1000 == GetMicroseconds(codeName)
      ensures GetMicroseconds(codeName) / 1000 == GetMilliseconds(codeName)
      ensures GetMilliseconds(codeName) / 1000 == GetSeconds(codeName)
    {
      var d := elapsedTimes[codeName];
      ToUnitsCoarsen(d, 1000000, 1000);
      ToUnitsCoarsen(d, 1000, 1000);
      ToUnitsCoarsen(d, 1, 1000);
    }

    /**
     * The first loop of the report: scans the results in the given iteration order and
     * keeps the smallest time seen so far and its name, replacing them only when a time is
     * strictly smaller. With no results there is no minimum.
     */
    method FindFastest(order: seq<string>) returns (fastestCodeName: string, minValue: Option<Duration>)
      requires AllMeasured(order, elapsedTimes)
      ensures order == [] ==> minValue == None
      ensures order != [] ==>
                var k := FirstMin(Values(order, elapsedTimes));
                fastestCodeName == order[k] && minValue == Some(elapsedTimes[order[k]])
    {
      ghost var ts := Values(order, elapsedTimes);
      fastestCodeName := "";
      minValue := None;
      var i := 0;
      while i < |order|
        invariant 0 <= i <= |order|
        invariant i == 0 ==> minValue == None
        invariant 0 < i ==> (minValue == Some(ts[FirstMin(ts[..i])]) &&
                             fastestCodeName == order[FirstMin(ts[..i])])
      {
        var seconds := elapsedTimes[order[i]];
        FirstMinExtend(ts, i);
        if minValue.None? || minValue.value > seconds {
          fastestCodeName := order[i];
          minValue := Some(seconds);
        }
        i := i + 1;
      }
      assert 0 < |order| ==> ts[..|order|] == ts;
    }

    /**
     * The body of the second loop of the report: appends the entry of one code block, its
     * name and the fastest mark, its speed relative to the smallest time and its time.
     */
    method AppendEntry(result: string, codeName: string, fastestCodeName: string, minValue: Duration,
                       formatSeconds: Duration -> string) returns (extended: string)
      requires codeName in elapsedTimes && 0.0 < elapsedTimes[codeName]
      ensures extended == result + RenderEntry(EntryOf(codeName, elapsedTimes, fastestCodeName, minValue), formatSeconds)
    {
      var secondsTime := elapsedTimes[codeName];
      var percentage := Percent(minValue, secondsTime);
      var header := "[" + codeName + "] ";
      var mark := if codeName == fastestCodeName then "(fastest)\n" else "\n";
      var speed := "- Speed: " + IntToString(percentage) + "%\n";
      var time := "- Elapsed Time: " + formatSeconds(secondsTime) + " seconds\n\n";
      AppendPieces(result, header, mark, speed, time);
      extended := result + header;
      extended := extended + mark;
      extended := extended + speed;
      extended := extended + time;
    }

    /**
     * The second loop of the report: appends, in the given iteration order, the entry of
     * every measured code block, with its speed relative to the smallest time minValue.
     */
    method AppendEntries(order: seq<string>, fastestCodeName: string, minValue: Option<Duration>,
                         formatSeconds: Duration -> string) returns (result: string)
      requires AllMeasured(order, elapsedTimes)
      requires order != [] ==> minValue.Some?
      ensures order != [] ==>
                result == Render(Entries(order, elapsedTimes, fastestCodeName, minValue.value, |order|), formatSeconds)
      ensures order == [] ==> result == ""
    {
      result := "";
      ghost var min := if minValue.Some? then minValue.value else 0.0;
      var i := 0;
      while i < |order|
        invariant 0 <= i <= |order|
        invariant result == Render(Entries(order, elapsedTimes, fastestCodeName, min, i), formatSeconds)
      {
        ghost var entries := Entries(order, elapsedTimes, fastestCodeName, min, i);
        ghost var entry := EntryOf(order[i], elapsedTimes, fastestCodeName, min);
        assert Entries(order, elapsedTimes, fastestCodeName, min, i + 1) == entries + [entry];
        RenderExtend(entries, entry, formatSeconds);
        result := AppendEntry(result, order[i], fastestCodeName, minValue.value, formatSeconds);
        i := i + 1;
      }
    }

    /**
     * The text report on the measured code blocks, visited in the given iteration order:
     * the fastest block is found by a strict-minimum scan, then every block's entry is
     * appended with its speed relative to the fastest. The seconds are formatted by
     * formatSeconds. With no results the report is empty.
     */
    method GetResult(order: seq<string>, formatSeconds: Duration -> string) returns (result: string)
      requires Valid()
      requires Enumerates(order, elapsedTimes.Keys)
      requires forall name | name in elapsedTimes :: 0.0 < elapsedTimes[name]
      ensures result == Render(Report(order, elapsedTimes), formatSeconds)
      ensures result == "" <==> elapsedTimes == map[]
    {
      assert AllMeasured(order, elapsedTimes);
      var fastestCodeName, minValue := FindFastest(order);
      result := AppendEntries(order, fastestCodeName, minValue, formatSeconds);
      if elapsedTimes == map[] {
        assert order == [];
      } else {
        var name :| name in elapsedTimes;
        assert name in order;
      }
    }
  }
}
