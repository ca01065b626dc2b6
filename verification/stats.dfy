/** The descriptive statistics: most common values (`mode()[0]`) of the
    time and station columns, the `Trip` key, and the breakdown of a
    duration into days, hours, minutes and seconds. */
module Stats {
  import opened Wrappers
  import opened Sequences
  import opened Loading

  /** `v` occurs in `col` at least as often as any other value. */
  predicate IsMode<T(==)>(col: seq<T>, v: T)
  {
    v in col && forall i :: 0 <= i < |col| ==> Count(col, col[i]) <= Count(col, v)
  }

  /** A candidate whose count in `col` is largest among `cands`. */
  function MostCommonAmong<T(==)>(col: seq<T>, cands: seq<T>): (m: T)
    requires cands != []
    ensures m in cands
    ensures forall c :: c in cands ==> Count(col, c) <= Count(col, m)
  {
    if |cands| == 1 then cands[0]
    else
      var best := MostCommonAmong(col, cands[1..]);
      if Count(col, cands[0]) >= Count(col, best) then cands[0] else best
  }

  /** `series.mode()[0]` on a non-empty column: some value of maximal
      count. Which of several tied values is returned is not fixed here. */
  function MostCommon<T(==)>(col: seq<T>): (m: T)
    requires col != []
    ensures IsMode(col, m)
  {
    MostCommonAmong(col, col)
  }

  /** The `Trip` column entry: start station, the text " -> ", end station. */
  function TripKey(start: string, end: string): (k: string)
    ensures |k| == |start| + |end| + 4
    ensures k[..|start|] == start && k[|start| + 4..] == end
    ensures k[|start|..|start| + 4] == " -> "
  {
    start + " -> " + end
  }

  /** While start stations do not contain '>', a `Trip` key names one pair
      of stations. */
  lemma TripKeyInjective(s1: string, e1: string, s2: string, e2: string)
    requires '>' !in s1 && '>' !in s2
    requires TripKey(s1, e1) == TripKey(s2, e2)
    ensures s1 == s2 && e1 == e2
  {
    var k := TripKey(s1, e1);
    FirstArrow(s1, e1);
    FirstArrow(s2, e2);
    assert |s1| == |s2|;
    assert s1 == k[..|s1|] == s2;
  }

  /** In a key whose start station has no '>', the first '>' is the one of
      the separator. */
  lemma FirstArrow(s: string, e: string)
    requires '>' !in s
    ensures TripKey(s, e)[|s| + 2] == '>'
    ensures forall j :: 0 <= j < |s| + 2 ==> TripKey(s, e)[j] != '>'
  {
  }

  /** Without that restriction two different pairs can share a key. */
  lemma TripKeyAmbiguous()
    ensures TripKey("a -> b", "c") == TripKey("a", "b -> c")
  {
  }

  function MonthColumn(rows: seq<Row>): (col: seq<int>)
    ensures |col| == |rows| && forall i :: 0 <= i < |rows| ==> col[i] == rows[i].month
  {
    seq(|rows|, i requires 0 <= i < |rows| => rows[i].month)
  }

  function DayColumn(rows: seq<Row>): (col: seq<int>)
    ensures |col| == |rows| && forall i :: 0 <= i < |rows| ==> col[i] == rows[i].dayOfWeek
  {
    seq(|rows|, i requires 0 <= i < |rows| => rows[i].dayOfWeek)
  }

  function HourColumn(rows: seq<Row>): (col: seq<int>)
    ensures |col| == |rows| && forall i :: 0 <= i < |rows| ==> col[i] == rows[i].startHour
  {
    seq(|rows|, i requires 0 <= i < |rows| => rows[i].startHour)
  }

  function StartColumn(rows: seq<Row>): (col: seq<string>)
    ensures |col| == |rows| && forall i :: 0 <= i < |rows| ==> col[i] == rows[i].startStation
  {
    seq(|rows|, i requires 0 <= i < |rows| => rows[i].startStation)
  }

  function EndColumn(rows: seq<Row>): (col: seq<string>)
    ensures |col| == |rows| && forall i :: 0 <= i < |rows| ==> col[i] == rows[i].endStation
  {
    seq(|rows|, i requires 0 <= i < |rows| => rows[i].endStation)
  }

  /** `df['Trip']`, the key of every row. */
  function TripColumn(rows: seq<Row>): (col: seq<string>)
    ensures |col| == |rows|
    ensures forall i :: 0 <= i < |rows| ==> col[i] == TripKey(rows[i].startStation, rows[i].endStation)
  {
    seq(|rows|, i requires 0 <= i < |rows| => TripKey(rows[i].startStation, rows[i].endStation))
  }

  datatype TimeSummary = TimeSummary(month: int, day: int, hour: int)

  datatype StationSummary = StationSummary(start: string, end: string, trip: string)

  /** `time_stats`: the most common month, day of week and start hour.
      An empty table has no mode, and `mode()[0]` raises (`None`). */
  function TimeStats(rows: seq<Row>): (r: Option<TimeSummary>)
    ensures r.Some? <==> rows != []
    ensures r.Some? ==> IsMode(MonthColumn(rows), r.value.month)
    ensures r.Some? ==> IsMode(DayColumn(rows), r.value.day)
    ensures r.Some? ==> IsMode(HourColumn(rows), r.value.hour)
  {
    if rows == [] then None
    else Some(TimeSummary(MostCommon(MonthColumn(rows)), MostCommon(DayColumn(rows)), MostCommon(HourColumn(rows))))
  }

  /** `station_stats`: the most common start station, end station and trip. */
  function StationStats(rows: seq<Row>): (r: Option<StationSummary>)
    ensures r.Some? <==> rows != []
    ensures r.Some? ==> IsMode(StartColumn(rows), r.value.start)
    ensures r.Some? ==> IsMode(EndColumn(rows), r.value.end)
    ensures r.Some? ==> IsMode(TripColumn(rows), r.value.trip)
  {
    if rows == [] then None
    else Some(StationSummary(MostCommon(StartColumn(rows)), MostCommon(EndColumn(rows)), MostCommon(TripColumn(rows))))
  }

  /** The most common month of a table filtered to one month is that month. */
  lemma FilteredMonthIsMode(rows: seq<Row>, m: int)
    requires Keep(rows, MonthIs(m)) != []
    ensures TimeStats(Keep(rows, MonthIs(m))).value.month == m
  {
    var kept := Keep(rows, MonthIs(m));
    var col := MonthColumn(kept);
    var v := TimeStats(kept).value.month;
    assert forall i :: 0 <= i < |kept| ==> SatisfiesAll(kept[i], [MonthIs(m)]);
    assert [MonthIs(m)][0] == MonthIs(m);
    var i :| 0 <= i < |col| && col[i] == v;
    assert Satisfies(kept[i], MonthIs(m));
  }

  /** A `datetime.timedelta` split as Python prints it: whole days, then the
      `seconds` field (0..86399) split into hours, minutes and seconds. */
  datatype Duration = Duration(days: int, hours: int, minutes: int, seconds: int)

  const SecondsPerDay := 86400

  predicate InRange(d: Duration)
  {
    0 <= d.hours < 24 && 0 <= d.minutes < 60 && 0 <= d.seconds < 60
  }

  function TotalSeconds(d: Duration): int
  {
    d.days * SecondsPerDay + d.hours * 3600 + d.minutes * 60 + d.seconds
  }

  /** `days`, `seconds // 3600`, `seconds % 3600 // 60`, `seconds % 3600 % 60`
      of a timedelta of `total` seconds; `days` is rounded towards minus
      infinity, as timedelta keeps `seconds` non-negative. */
  function Breakdown(total: int): (d: Duration)
    ensures InRange(d)
    ensures TotalSeconds(d) == total
  {
    var secs := total % SecondsPerDay;
    Duration(total / SecondsPerDay, secs / 3600, secs % 3600 / 60, secs % 3600 % 60)
  }

  /** The breakdown is the only in-range duration with that many seconds. */
  lemma BreakdownUnique(d: Duration)
    requires InRange(d)
    ensures Breakdown(TotalSeconds(d)) == d
  {
    var rest := d.hours * 3600 + d.minutes * 60 + d.seconds;
    assert 0 <= rest < SecondsPerDay;
    assert TotalSeconds(d) == d.days * SecondsPerDay + rest;
    assert TotalSeconds(d) / SecondsPerDay == d.days && TotalSeconds(d) % SecondsPerDay == rest by {
      DivModUnique(TotalSeconds(d), SecondsPerDay, d.days, rest);
    }
    var ms := d.minutes * 60 + d.seconds;
    assert 0 <= ms < 3600;
    DivModUnique(rest, 3600, d.hours, ms);
    DivModUnique(ms, 60, d.minutes, d.seconds);
  }

  /** Integer division by a positive number has exactly one quotient and
      remainder pair. */
  lemma DivModUnique(n: int, k: int, q: int, r: int)
    requires k > 0 && 0 <= r < k && n == q * k + r
    ensures n / k == q && n % k == r
  {
    var q', r' := n / k, n % k;
    assert n == q' * k + r';
    assert (q - q') * k == r' - r;
    if q > q' {
      MulAtLeast(q - q', k);
    } else if q < q' {
      MulAtLeast(q' - q, k);
    }
  }

  lemma MulAtLeast(a: int, k: int)
    requires a >= 1 && k > 0
    ensures a * k >= k
  {
  }

  /** One day, one hour, one minute and one second. */
  lemma BreakdownExample()
    ensures Breakdown(90061) == Duration(1, 1, 1, 1)
  {
  }
}
