/**
 * The comparative report of a benchmark: which measured code block is the fastest, how fast
 * every block is relative to it, and the text the report is rendered to.
 *
 * The report is computed on a sequence of names, the order in which the table of results
 * is visited, and on that table.
 */
module Reporting {
  import opened Measurement

  /** One block of the report: name, the "(fastest)" mark, speed in percent, seconds. */
  datatype Entry = Entry(name: string, isFastest: bool, percentage: int, seconds: Duration)

  /** Every name has a result, and every result is positive. */
  predicate AllMeasured(order: seq<string>, times: map<string, Duration>)
  {
    forall i | 0 <= i < |order| :: order[i] in times && 0.0 < times[order[i]]
  }

  /** The durations of the names, in the order of the names. */
  function Values(order: seq<string>, times: map<string, Duration>): (ts: seq<Duration>)
    requires forall i | 0 <= i < |order| :: order[i] in times
    ensures |ts| == |order|
    ensures forall i | 0 <= i < |order| :: ts[i] == times[order[i]]
  {
    seq(|order|, i requires 0 <= i < |order| => times[order[i]])
  }

  /**
   * k is where a scan that keeps the smallest value so far, replacing it only on a strictly
   * smaller one, ends up: a minimum of ts that no earlier element equals.
   */
  ghost predicate IsFirstMinimum(ts: seq<Duration>, k: nat)
  {
    && k < |ts|
    && (forall j | 0 <= j < |ts| :: ts[k] <= ts[j])
    && (forall j | 0 <= j < k :: ts[k] < ts[j])
  }

  /** Only one index is the first minimum. */
  lemma FirstMinimumUnique(ts: seq<Duration>, k: nat, k': nat)
    requires IsFirstMinimum(ts, k) && IsFirstMinimum(ts, k')
    ensures k == k'
  {
    assert ts[k] <= ts[k'] && ts[k'] <= ts[k];
  }

  /**
   * The index the strict-minimum scan selects: the scan of all but the last element,
   * replaced by the last one when the value found so far is greater than it.
   */
  function FirstMin(ts: seq<Duration>): (k: nat)
    requires |ts| > 0
    ensures IsFirstMinimum(ts, k)
  {
    if |ts| == 1 then 0
    else
      var k := FirstMin(ts[..|ts| - 1]);
      if ts[k] > ts[|ts| - 1] then |ts| - 1 else k
  }

  /** Scanning one more element: it replaces the minimum found so far when that is greater. */
  lemma FirstMinExtend(ts: seq<Duration>, i: nat)
    requires i < |ts|
    ensures i == 0 ==> FirstMin(ts[..i + 1]) == 0
    ensures 0 < i ==> FirstMin(ts[..i + 1])
                      == if ts[FirstMin(ts[..i])] > ts[i] then i else FirstMin(ts[..i])
  {
    assert ts[..i + 1][..i] == ts[..i];
  }

  /** The speed of a block that takes t seconds relative to the fastest one, min: (int)(min / t * 100). */
  function Percent(min: real, t: Duration): (p: int)
    requires 0.0 < t
    ensures 0.0 <= min ==> 0 <= p && p as real <= min / t * 100.0 < p as real + 1.0
  {
    Trunc(min / t * 100.0)
  }

  /**
   * For 0 < min <= t the speed is between 0 and 100 percent, and it is exactly 100 percent
   * when t is the minimum.
   */
  lemma PercentRange(min: real, t: Duration)
    requires 0.0 < min <= t
    ensures 0 <= Percent(min, t) <= 100
    ensures Percent(min, t) == 100 <==> min == t
  {
    var q := min / t;
    RatioAtMostOne(min, t);
    assert q * 100.0 <= 100.0;
    assert min < t ==> q * 100.0 < 100.0;
    assert min == t ==> q * 100.0 == 100.0;
  }

  /** The ratio of a positive value to one at least as large is at most one, and one only if they are equal. */
  lemma RatioAtMostOne(a: real, b: real)
    requires 0.0 < a <= b
    ensures 0.0 < a / b <= 1.0
    ensures a / b == 1.0 <==> a == b
  {
    var q := a / b;
    assert q * b == a;
    ScaleCancel(q, 1.0, b);
    ScaleCancel(1.0, q, b);
    assert 1.0 * b == b;
  }

  /** The entry of a measured name, marked against the fastest name and its time min. */
  function EntryOf(name: string, times: map<string, Duration>, fastest: string, min: real): Entry
    requires name in times && 0.0 < times[name]
  {
    Entry(name, name == fastest, Percent(min, times[name]), times[name])
  }

  /** The entries of the first count names. */
  function Entries(order: seq<string>, times: map<string, Duration>, fastest: string, min: real, count: nat): (es: seq<Entry>)
    requires AllMeasured(order, times)
    requires count <= |order|
    ensures |es| == count
  {
    if count == 0 then []
    else Entries(order, times, fastest, min, count - 1) + [EntryOf(order[count - 1], times, fastest, min)]
  }

  /** The i-th of the first count entries is that of the i-th name. */
  lemma {:induction false} EntriesAt(order: seq<string>, times: map<string, Duration>, fastest: string, min: real, count: nat, i: nat)
    requires AllMeasured(order, times)
    requires i < count <= |order|
    ensures |Entries(order, times, fastest, min, count)| == count
    ensures Entries(order, times, fastest, min, count)[i] == EntryOf(order[i], times, fastest, min)
  {
    if i < count - 1 {
      EntriesAt(order, times, fastest, min, count - 1, i);
    } else if 0 < i {
      EntriesAt(order, times, fastest, min, count - 1, 0);
    }
  }

  /**
   * The report on the names in the given order: empty when nothing was measured; otherwise
   * one entry per name, the fastest being the name the strict-minimum scan selects.
   */
  function Report(order: seq<string>, times: map<string, Duration>): (r: seq<Entry>)
    requires AllMeasured(order, times)
    ensures |r| == |order|
  {
    if order == [] then []
    else
      var k := FirstMin(Values(order, times));
      Entries(order, times, order[k], times[order[k]], |order|)
  }

  /**
   * The report has one entry per name, in order, with that name's seconds; every speed is
   * taken relative to the smallest time and lies between 0 and 100 percent, and it is 100
   * percent exactly for the names whose time is the smallest one.
   */
  lemma ReportEntries(order: seq<string>, times: map<string, Duration>, i: nat)
    requires AllMeasured(order, times)
    requires i < |order|
    ensures |Report(order, times)| == |order|
    ensures var ts := Values(order, times);
            var min := ts[FirstMin(ts)];
            var e := Report(order, times)[i];
            && e.name == order[i]
            && e.seconds == times[order[i]]
            && e.percentage == Percent(min, times[order[i]])
            && 0 <= e.percentage <= 100
            && (e.percentage == 100 <==> times[order[i]] == min)
  {
    var ts := Values(order, times);
    var k := FirstMin(ts);
    EntriesAt(order, times, order[k], ts[k], |order|, i);
    PercentRange(ts[k], ts[i]);
  }

  /**
   * With distinct names, exactly one entry is marked as the fastest: the first name, in
   * order, whose time is strictly smaller than the times of all earlier names and no greater
   * than any later one. Its speed is 100 percent.
   */
  lemma ReportFastest(order: seq<string>, times: map<string, Duration>, i: nat)
    requires AllMeasured(order, times)
    requires Distinct(order)
    requires i < |order|
    ensures var r := Report(order, times);
            |r| == |order| &&
            (r[i].isFastest <==> IsFirstMinimum(Values(order, times), i)) &&
            (r[i].isFastest ==> r[i].percentage == 100)
  {
    var ts := Values(order, times);
    var k := FirstMin(ts);
    EntriesAt(order, times, order[k], ts[k], |order|, i);
    PercentRange(ts[k], ts[i]);
    if IsFirstMinimum(ts, i) {
      FirstMinimumUnique(ts, i, k);
    }
  }

  /** With distinct names and at least one result, exactly one entry is marked as the fastest. */
  lemma ReportOneFastest(order: seq<string>, times: map<string, Duration>)
    requires AllMeasured(order, times)
    requires Distinct(order)
    requires order != []
    ensures var r := Report(order, times);
            && (exists i | 0 <= i < |r| :: r[i].isFastest)
            && (forall i, j | 0 <= i < |r| && 0 <= j < |r| && r[i].isFastest && r[j].isFastest :: i == j)
  {
    var r := Report(order, times);
    var ts := Values(order, times);
    var k := FirstMin(ts);
    ReportFastest(order, times, k);
    forall i, j | 0 <= i < |r| && 0 <= j < |r| && r[i].isFastest && r[j].isFastest
      ensures i == j
    {
      ReportFastest(order, times, i);
      ReportFastest(order, times, j);
      FirstMinimumUnique(ts, i, j);
    }
  }

  /**
   * Three blocks that take 10, 20 and 30 milliseconds: the first is the fastest at 100
   * percent, the others run at 50 and 33 percent of its speed.
   */
  lemma ThreeBlocks()
    ensures var times := map["a" := 0.010, "b" := 0.020, "c" := 0.030];
            Report(["a", "b", "c"], times)
            == [Entry("a", true, 100, 0.010), Entry("b", false, 50, 0.020), Entry("c", false, 33, 0.030)]
  {
    var times := map["a" := 0.010, "b" := 0.020, "c" := 0.030];
    var order := ["a", "b", "c"];
    var ts := Values(order, times);
    assert ts == [0.010, 0.020, 0.030];
    assert FirstMin(ts) == 0 by {
      assert ts[..2][..1] == [0.010];
      assert ts[..2] == [0.010, 0.020];
      assert ts[..3] == ts;
    }
    assert Percent(0.010, 0.010) == 100;
    assert Percent(0.010, 0.020) == 50;
    assert Percent(0.010, 0.030) == 33;
    var r := Report(order, times);
    assert r == Entries(order, times, "a", 0.010, 3);
    EntriesAt(order, times, "a", 0.010, 3, 0);
    EntriesAt(order, times, "a", 0.010, 3, 1);
    EntriesAt(order, times, "a", 0.010, 3, 2);
  }

  /** The text of one entry: a header line with the name and the mark, the speed, the time. */
  function RenderEntry(e: Entry, formatSeconds: Duration -> string): (text: string)
    ensures |e.name| + 3 <= |text| && text[..|e.name| + 3] == "[" + e.name + "] "
  {
    ("[" + e.name + "] ")
    + (if e.isFastest then "(fastest)\n" else "\n")
    + ("- Speed: " + IntToString(e.percentage) + "%\n")
    + ("- Elapsed Time: " + formatSeconds(e.seconds) + " seconds\n\n")
  }

  /** Appending four pieces one by one appends their concatenation. */
  lemma AppendPieces(text: string, p1: string, p2: string, p3: string, p4: string)
    ensures text + p1 + p2 + p3 + p4 == text + (p1 + p2 + p3 + p4)
  {
  }

  /** The text of the report: the entries' texts one after another; empty exactly when there are none. */
  function Render(es: seq<Entry>, formatSeconds: Duration -> string): (text: string)
    ensures text == "" <==> es == []
  {
    if es == [] then "" else Render(es[..|es| - 1], formatSeconds) + RenderEntry(es[|es| - 1], formatSeconds)
  }

  /** Rendering one more entry appends that entry's text. */
  lemma RenderExtend(es: seq<Entry>, e: Entry, formatSeconds: Duration -> string)
    ensures Render(es + [e], formatSeconds) == Render(es, formatSeconds) + RenderEntry(e, formatSeconds)
  {
    assert (es + [e])[..|es|] == es;
  }

  /** A decimal digit. */
  function DigitChar(d: nat): (c: char)
    requires d < 10
    ensures '0' <= c <= '9'
  {
    ('0' as int + d) as char
  }

  /** The value of a decimal digit. */
  function DigitValue(c: char): (d: nat)
    requires '0' <= c <= '9'
    ensures d < 10 && DigitChar(d) == c
  {
    c as int - '0' as int
  }

  /** Every character is a decimal digit. */
  predicate AllDigits(s: string)
  {
    forall i | 0 <= i < |s| :: '0' <= s[i] <= '9'
  }

  /** The decimal digits of n, most significant first, without leading zeros. */
  function NatToString(n: nat): (s: string)
    ensures |s| > 0
    ensures AllDigits(s)
    ensures s[0] == '0' ==> n == 0
  {
    if n < 10 then [DigitChar(n)] else NatToString(n / 10) + [DigitChar(n % 10)]
  }

  /** std::to_string of an int: its decimal digits, preceded by '-' when negative. */
  function IntToString(i: int): (s: string)
    ensures |s| > 0 && (s[0] == '-' <==> i < 0)
  {
    if i < 0 then "-" + NatToString(-i) else NatToString(i)
  }

  /** The number that a string of decimal digits denotes. */
  function ParseNat(s: string): nat
    requires AllDigits(s)
  {
    if s == [] then 0 else ParseNat(s[..|s| - 1]) * 10 + DigitValue(s[|s| - 1])
  }

  /** The number that an optionally signed decimal string denotes. */
  function ParseInt(s: string): int
    requires |s| > 0
    requires AllDigits(s) || (s[0] == '-' && AllDigits(s[1..]))
  {
    if s[0] == '-' then 0 - ParseNat(s[1..]) else ParseNat(s)
  }

  /** Reading the digits of n back gives n. */
  lemma {:induction false} ParseNatToString(n: nat)
    ensures ParseNat(NatToString(n)) == n
  {
    if n >= 10 {
      ParseNatToString(n / 10);
      var s := NatToString(n);
      assert s[..|s| - 1] == NatToString(n / 10);
    }
  }

  /**
   * The text of an int in the report is a non-empty decimal numeral, signed exactly when
   * the int is negative, and it denotes that int.
   */
  lemma IntToStringRoundTrip(i: int)
    ensures var s := IntToString(i);
            && |s| > 0
            && (AllDigits(s) || (s[0] == '-' && AllDigits(s[1..])))
            && (s[0] == '-' <==> i < 0)
            && ParseInt(s) == i
  {
    if i < 0 {
      var t := NatToString(-i);
      ParseNatToString(-i);
      assert ("-" + t)[1..] == t;
    } else {
      ParseNatToString(i);
    }
  }
}
