/**
 * Durations and the arithmetic the benchmark does on them: the running sum of per-run
 * durations, their mean, the table of means a benchmark run produces, and the conversion
 * of a duration in seconds to a whole number of seconds, milliseconds, microseconds or
 * nanoseconds.
 *
 * Durations are exact reals; the floating-point rounding of std::chrono::duration<double>
 * is not modelled.
 */
module Measurement {

  /**
   * A measured duration in seconds. The readings a run takes are assumed to be
   * non-negative; a clock stepped back between two readings is not modelled.
   */
  type Duration = d: real | 0.0 <= d

  /** No name occurs twice, as in the key sequence of a map. */
  predicate Distinct(names: seq<string>)
  {
    forall i, j | 0 <= i < j < |names| :: names[i] != names[j]
  }

  /** The durations added up from the left, in the order the inner loop of a run adds them. */
  function Sum(s: seq<Duration>): Duration
  {
    if s == [] then 0.0 else Sum(s[..|s| - 1]) + s[|s| - 1]
  }

  /** Extending a slice of readings by one reading adds that reading to the sum. */
  lemma SumExtend(readings: seq<Duration>, lo: nat, hi: nat)
    requires lo <= hi < |readings|
    ensures Sum(readings[lo..hi + 1]) == Sum(readings[lo..hi]) + readings[hi]
  {
    assert readings[lo..hi + 1][..hi - lo] == readings[lo..hi];
  }

  /** A sum of |s| durations each between lo and hi lies between |s| * lo and |s| * hi. */
  lemma {:induction false} SumBounds(s: seq<Duration>, lo: real, hi: real)
    requires forall i | 0 <= i < |s| :: lo <= s[i] <= hi
    ensures |s| as real * lo <= Sum(s) <= |s| as real * hi
  {
    if s != [] {
      var n := |s| - 1;
      SumBounds(s[..n], lo, hi);
      assert Sum(s) == Sum(s[..n]) + s[n];
      ScaleSucc(n, lo);
      ScaleSucc(n, hi);
      assert |s| as real == (n + 1) as real;
    }
  }

  /** n + 1 copies of x are n copies and one more. */
  lemma ScaleSucc(n: nat, x: real)
    ensures (n + 1) as real * x == n as real * x + x
  {
  }

  /** The arithmetic mean: the value that, taken |s| times, gives the sum. */
  function Mean(s: seq<Duration>): (m: Duration)
    requires |s| > 0
    ensures m * |s| as real == Sum(s)
  {
    Sum(s) / |s| as real
  }

  /** The mean of durations between lo and hi is itself between lo and hi. */
  lemma MeanBounds(s: seq<Duration>, lo: real, hi: real)
    requires |s| > 0
    requires forall i | 0 <= i < |s| :: lo <= s[i] <= hi
    ensures lo <= Mean(s) <= hi
  {
    SumBounds(s, lo, hi);
    var n := |s| as real;
    ScaleCancel(lo, Mean(s), n);
    ScaleCancel(Mean(s), hi, n);
  }

  /** Multiplying both sides by the same positive factor keeps an inequality, both ways. */
  lemma ScaleCancel(a: real, b: real, n: real)
    requires 0.0 < n
    ensures a <= b <==> a * n <= b * n
    ensures a < b <==> a * n < b * n
  {
    if a <= b {
      assert a * n <= b * n;
    }
    if a < b {
      assert a * n < b * n;
    }
  }

  /** The mean is the only value that, taken |s| times, gives the sum. */
  lemma MeanUnique(s: seq<Duration>, a: real)
    requires |s| > 0
    requires a * |s| as real == Sum(s)
    ensures a == Mean(s)
  {
    var m, k := Mean(s), |s| as real;
    assert a * k == m * k;
    ScaleCancel(a, m, k);
    ScaleCancel(m, a, k);
  }

  /** A fixed-cost code block: when every run takes d, the mean is d, whatever the count. */
  lemma MeanOfConstant(s: seq<Duration>, d: Duration)
    requires |s| > 0
    requires forall i | 0 <= i < |s| :: s[i] == d
    ensures Mean(s) == d
  {
    MeanBounds(s, d, d);
  }

  /** Conversion of a real to an integer by truncation toward zero, as a C++ cast does. */
  function Trunc(x: real): (r: int)
    ensures 0.0 <= x ==> r as real <= x < r as real + 1.0
    ensures x < 0.0 ==> r as real - 1.0 < x <= r as real
  {
    if 0.0 <= x then x.Floor else -((-x).Floor)
  }

  /**
   * std::chrono::duration_cast of a duration in seconds to a unit that has unitsPerSecond
   * ticks per second: the number of whole ticks, truncated toward zero.
   */
  function ToUnits(d: Duration, unitsPerSecond: nat): (r: int)
    ensures 0 <= r
    ensures r as real <= d * unitsPerSecond as real < r as real + 1.0
  {
    Trunc(d * unitsPerSecond as real)
  }

  /**
   * Converting to a finer unit and dividing by the ratio gives the coarser unit: e.g. the
   * number of nanoseconds divided by 1000 is the number of microseconds.
   */
  lemma ToUnitsCoarsen(d: Duration, coarse: nat, ratio: nat)
    requires 0 < ratio
    ensures ToUnits(d, coarse * ratio) / ratio == ToUnits(d, coarse)
  {
    var y := d * coarse as real;
    var b := ratio as real;
    assert d * (coarse * ratio) as real == y * b;
    FloorOfScaled(y, ToUnits(d, coarse), ToUnits(d, coarse * ratio), ratio);
  }

  /**
   * If q is the whole part of y and f the whole part of y * ratio, then f divided by ratio
   * is q.
   */
  lemma FloorOfScaled(y: real, q: int, f: int, ratio: nat)
    requires 0 < ratio
    requires q as real <= y < q as real + 1.0
    requires f as real <= y * ratio as real < f as real + 1.0
    ensures f / ratio == q
  {
    var b := ratio as real;
    ScaleCancel(q as real, y, b);
    ScaleCancel(y, q as real + 1.0, b);
    assert (q * ratio) as real == q as real * b;
    assert ((q + 1) * ratio) as real == (q as real + 1.0) * b;
    assert q * ratio <= f;
    assert f < (q + 1) * ratio;
    DivUnique(f, q, ratio);
  }

  /** An integer between q * ratio and q * ratio + ratio - 1 has quotient q. */
  lemma DivUnique(f: int, q: int, ratio: nat)
    requires 0 < ratio
    requires q * ratio <= f < (q + 1) * ratio
    ensures f / ratio == q
  {
    var d, m := f / ratio, f % ratio;
    assert f == d * ratio + m && 0 <= m < ratio;
    if d > q {
      MulMono(q + 1, d, ratio);
    } else if d < q {
      MulMono(d + 1, q, ratio);
    }
  }

  /** Multiplication by a non-negative factor is monotonic. */
  lemma MulMono(a: int, b: int, c: nat)
    requires a <= b
    ensures a * c <= b * c
  {
  }

  /**
   * The durations of the i-th code block of a run: n consecutive readings starting at
   * start + i * n.
   */
  function Window(readings: seq<Duration>, start: nat, n: nat, i: nat): (w: seq<Duration>)
    requires start + i * n + n <= |readings|
    ensures |w| == n
    ensures forall j | 0 <= j < n :: w[j] == readings[start + i * n + j]
  {
    readings[start + i * n .. start + i * n + n]
  }

  /** For i < k, the i-th window of n readings ends no later than the k-th run of n does. */
  lemma WindowFits(i: nat, k: nat, n: nat)
    requires i < k
    ensures i * n + n <= k * n
  {
    assert i * n + n == (i + 1) * n;
    assert (i + 1) * n <= k * n;
  }

  /** Setting a key after a union is the union with the key set in the right-hand map. */
  lemma UpdateUnion<K, V>(a: map<K, V>, b: map<K, V>, k: K, v: V)
    ensures (a + b)[k := v] == a + b[k := v]
  {
  }

  /** A union with a map that has every key of the left-hand one is that map. */
  lemma UnionCovered<K, V>(a: map<K, V>, b: map<K, V>)
    requires a.Keys <= b.Keys
    ensures a + b == b
  {
  }

  /** One more window of n readings is n readings more. */
  lemma MulSucc(i: nat, n: nat)
    ensures (i + 1) * n == i * n + n
  {
  }

  /**
   * The table of means a run produces after visiting the first count code blocks of the
   * order, each taking n consecutive readings, the first block's starting at start: a map
   * set entry by entry, so that a later entry for a name overwrites an earlier one.
   */
  function Averages(order: seq<string>, readings: seq<Duration>, start: nat, n: nat, count: nat): map<string, Duration>
    requires 0 < n
    requires count <= |order|
    requires start + |order| * n <= |readings|
  {
    if count == 0 then map[]
    else
      WindowFits(count - 1, |order|, n);
      Averages(order, readings, start, n, count - 1)[order[count - 1] := Mean(Window(readings, start, n, count - 1))]
  }

  /**
   * A run that started from the table before and has visited the first i names, after
   * recording the mean of the i-th window under the i-th name, has visited i + 1 names.
   */
  lemma AveragesStep(before: map<string, Duration>, order: seq<string>, readings: seq<Duration>,
                     start: nat, n: nat, i: nat)
    requires 0 < n
    requires i < |order|
    requires start + |order| * n <= |readings|
    ensures (WindowFits(i, |order|, n);
             (before + Averages(order, readings, start, n, i))[order[i] := Mean(Window(readings, start, n, i))]
             == before + Averages(order, readings, start, n, i + 1))
  {
    WindowFits(i, |order|, n);
    UpdateUnion(before, Averages(order, readings, start, n, i), order[i], Mean(Window(readings, start, n, i)));
  }

  /**
   * With distinct names, once the i-th name has been visited it maps to the mean of the
   * i-th window of readings.
   */
  lemma {:induction false} AveragesAt(order: seq<string>, readings: seq<Duration>, start: nat, n: nat,
                                      count: nat, i: nat)
    requires 0 < n
    requires count <= |order|
    requires start + |order| * n <= |readings|
    requires Distinct(order)
    requires i < count
    ensures (WindowFits(i, |order|, n);
             order[i] in Averages(order, readings, start, n, count) &&
             Averages(order, readings, start, n, count)[order[i]] == Mean(Window(readings, start, n, i)))
  {
    WindowFits(i, |order|, n);
    if i < count - 1 {
      AveragesAt(order, readings, start, n, count - 1, i);
    }
  }

  /** The keys of the table of means are exactly the names visited. */
  lemma {:induction false} AveragesKeys(order: seq<string>, readings: seq<Duration>, start: nat, n: nat, count: nat)
    requires 0 < n
    requires count <= |order|
    requires start + |order| * n <= |readings|
    ensures Averages(order, readings, start, n, count).Keys == set j | 0 <= j < count :: order[j]
  {
    if count > 0 {
      AveragesKeys(order, readings, start, n, count - 1);
      assert (set j | 0 <= j < count :: order[j])
          == (set j | 0 <= j < count - 1 :: order[j]) + {order[count - 1]};
    }
  }

  /**
   * A run over code blocks that every time take the same d seconds records d for every
   * block, whatever the iteration count.
   */
  lemma AveragesOfConstant(order: seq<string>, readings: seq<Duration>, start: nat, n: nat, d: Duration, i: nat)
    requires 0 < n
    requires start + |order| * n <= |readings|
    requires Distinct(order)
    requires forall j | start <= j < start + |order| * n :: readings[j] == d
    requires i < |order|
    ensures order[i] in Averages(order, readings, start, n, |order|)
    ensures Averages(order, readings, start, n, |order|)[order[i]] == d
  {
    WindowFits(i, |order|, n);
    var w := Window(readings, start, n, i);
    forall j | 0 <= j < n
      ensures w[j] == d
    {
      assert start + i * n + j < start + |order| * n;
    }
    MeanOfConstant(w, d);
    AveragesAt(order, readings, start, n, |order|, i);
  }
}
