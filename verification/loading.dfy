/** Loading and filtering the trip table (`load_data`). A row carries the
    integer fields derived from its start time (month 1..12, day of week with
    Monday = 0, start hour); each filter keeps exactly the rows whose field
    equals the requested value. */
module Loading {
  import opened Wrappers
  import opened Sequences
  import opened Filters

  /** One trip record with its derived columns. */
  datatype Row = Row(
    startStation: string,
    endStation: string,
    month: int,
    dayOfWeek: int,
    startHour: int)

  /** One equality filter on a derived column. */
  datatype Criterion = MonthIs(month: int) | DayIs(day: int) | HourIs(hour: int)

  /** The exception `list.index` raises for a name that is not in the list. */
  datatype LoadError = UnknownMonth(month: string) | UnknownDay(day: string)

  /** The month list without `all`, in calendar order. */
  const Months: seq<string> := ["january", "february", "march", "april", "may", "june"]

  /** The days of the week, Monday first. */
  const Days: seq<string> :=
    ["monday", "tuesday", "wednesday", "thursday", "friday", "saturday", "sunday"]

  predicate Satisfies(row: Row, c: Criterion)
  {
    match c
    case MonthIs(m) => row.month == m
    case DayIs(d) => row.dayOfWeek == d
    case HourIs(h) => row.startHour == h
  }

  predicate SatisfiesAll(row: Row, cs: seq<Criterion>)
  {
    forall i :: 0 <= i < |cs| ==> Satisfies(row, cs[i])
  }

  /** Reference definition of filtering: one pass over the table keeping
      the rows that meet every criterion. The result is an order-preserving
      subsequence of the table, holding every matching row exactly as often
      as the table does and no other row. */
  function FilterAll(rows: seq<Row>, cs: seq<Criterion>): (r: seq<Row>)
    ensures SubsequenceOf(r, rows)
    ensures forall i :: 0 <= i < |r| ==> SatisfiesAll(r[i], cs)
    ensures forall x :: Count(r, x) == if SatisfiesAll(x, cs) then Count(rows, x) else 0
  {
    if rows == [] then []
    else
      var rest := FilterAll(rows[1..], cs);
      if SatisfiesAll(rows[0], cs) then [rows[0]] + rest else rest
  }

  /** One step of the pipeline, `df[df[column] == value]`. */
  function Keep(rows: seq<Row>, c: Criterion): (r: seq<Row>)
    ensures SubsequenceOf(r, rows)
    ensures forall i :: 0 <= i < |r| ==> Satisfies(r[i], c)
    ensures forall x :: Count(r, x) == if Satisfies(x, c) then Count(rows, x) else 0
  {
    assert forall x :: SatisfiesAll(x, [c]) == Satisfies(x, c) by {
      forall x ensures SatisfiesAll(x, [c]) == Satisfies(x, c) {
        SatisfiesAllSingle(x, [c]);
      }
    }
    FilterAll(rows, [c])
  }

  /** Applying the criteria one after the other, in the given order. */
  function KeepEach(rows: seq<Row>, cs: seq<Criterion>): seq<Row>
    decreases |cs|
  {
    if cs == [] then rows else KeepEach(Keep(rows, cs[0]), cs[1..])
  }

  lemma {:induction false} FilterAllKeep(rows: seq<Row>, c: Criterion, cs: seq<Criterion>)
    ensures FilterAll(Keep(rows, c), cs) == FilterAll(rows, [c] + cs)
  {
    if rows != [] {
      FilterAllKeep(rows[1..], c, cs);
      SatisfiesAllConcat(rows[0], [c], cs);
      SatisfiesAllSingle(rows[0], [c]);
    }
  }

  /** One more step after a run of steps. */
  lemma {:induction false} KeepEachSnoc(rows: seq<Row>, cs: seq<Criterion>, c: Criterion)
    ensures KeepEach(rows, cs + [c]) == Keep(KeepEach(rows, cs), c)
    decreases |cs|
  {
    if cs == [] {
      assert [] + [c] == [c];
    } else {
      assert (cs + [c])[1..] == cs[1..] + [c];
      KeepEachSnoc(Keep(rows, cs[0]), cs[1..], c);
    }
  }

  /** Filtering step by step gives the one-pass result. */
  lemma {:induction false} KeepEachIsFilterAll(rows: seq<Row>, cs: seq<Criterion>)
    ensures KeepEach(rows, cs) == FilterAll(rows, cs)
    decreases |cs|
  {
    if cs == [] {
      FilterAllNoCriteria(rows);
    } else {
      KeepEachIsFilterAll(Keep(rows, cs[0]), cs[1..]);
      FilterAllKeep(rows, cs[0], cs[1..]);
      assert [cs[0]] + cs[1..] == cs;
    }
  }

  /** With no criteria every row is kept. */
  lemma {:induction false} FilterAllNoCriteria(rows: seq<Row>)
    ensures FilterAll(rows, []) == rows
  {
    if rows != [] {
      FilterAllNoCriteria(rows[1..]);
      assert rows == [rows[0]] + rows[1..];
    }
  }

  /** Filtering depends only on which criteria are active, not on their
      order or repetition. */
  lemma {:induction false} FilterAllSameCriteria(rows: seq<Row>, cs1: seq<Criterion>, cs2: seq<Criterion>)
    requires forall c :: c in cs1 <==> c in cs2
    ensures FilterAll(rows, cs1) == FilterAll(rows, cs2)
  {
    if rows != [] {
      FilterAllSameCriteria(rows[1..], cs1, cs2);
      var x := rows[0];
      assert SatisfiesAll(x, cs1) <==> SatisfiesAll(x, cs2) by {
        assert SatisfiesAll(x, cs1) <==> forall c :: c in cs1 ==> Satisfies(x, c);
        assert SatisfiesAll(x, cs2) <==> forall c :: c in cs2 ==> Satisfies(x, c);
      }
    }
  }

  /** The filters commute: any two orders of the same criteria give the
      same table. */
  lemma FiltersCommute(rows: seq<Row>, cs1: seq<Criterion>, cs2: seq<Criterion>)
    requires forall c :: c in cs1 <==> c in cs2
    ensures KeepEach(rows, cs1) == KeepEach(rows, cs2)
  {
    KeepEachIsFilterAll(rows, cs1);
    KeepEachIsFilterAll(rows, cs2);
    FilterAllSameCriteria(rows, cs1, cs2);
  }

  /** Filtering twice by the same criterion is filtering once. */
  lemma KeepIdempotent(rows: seq<Row>, c: Criterion)
    ensures Keep(Keep(rows, c), c) == Keep(rows, c)
  {
    FilterAllKeep(rows, c, [c]);
    FilterAllSameCriteria(rows, [c] + [c], [c]);
  }

  /** `list.index`: the position of the first occurrence of `x`, or a
      ValueError (`None`) when `x` is absent. */
  function IndexOf(xs: seq<string>, x: string): (r: Option<nat>)
    ensures r.Some? <==> x in xs
    ensures r.Some? ==> r.value < |xs| && xs[r.value] == x && x !in xs[..r.value]
  {
    if xs == [] then None
    else if xs[0] == x then Some(0)
    else match IndexOf(xs[1..], x)
      case None => None
      case Some(k) =>
        assert xs[..k + 1] == [xs[0]] + xs[1..][..k];
        Some(k + 1)
  }

  /** `months.index(month) + 1`. */
  function MonthNumber(name: string): (r: Option<int>)
    ensures r.Some? <==> name in Months
    ensures r.Some? ==> 1 <= r.value <= |Months| && Months[r.value - 1] == name
  {
    match IndexOf(Months, name)
    case None => None
    case Some(k) => Some(k + 1)
  }

  /** `days.index(day)`. */
  function DayNumber(name: string): (r: Option<int>)
    ensures r.Some? <==> name in Days
    ensures r.Some? ==> 0 <= r.value < |Days| && Days[r.value] == name
  {
    match IndexOf(Days, name)
    case None => None
    case Some(k) => Some(k)
  }

  predicate Distinct(xs: seq<string>)
  {
    forall a, b :: 0 <= a < b < |xs| ==> xs[a] != xs[b]
  }

  /** In a list without repetitions, `index` finds each element at its own position. */
  lemma IndexOfDistinct(xs: seq<string>, i: nat)
    requires Distinct(xs) && i < |xs|
    ensures IndexOf(xs, xs[i]) == Some(i)
  {
  }

  /** January..June map to 1..6. */
  lemma MonthNumbers()
    ensures forall i :: 0 <= i < |Months| ==> MonthNumber(Months[i]) == Some(i + 1)
  {
    forall i | 0 <= i < |Months|
      ensures MonthNumber(Months[i]) == Some(i + 1)
    {
      IndexOfDistinct(Months, i);
    }
  }

  /** Monday..Sunday map to 0..6. */
  lemma DayNumbers()
    ensures forall i :: 0 <= i < |Days| ==> DayNumber(Days[i]) == Some(i)
  {
    forall i | 0 <= i < |Days|
      ensures DayNumber(Days[i]) == Some(i)
    {
      IndexOfDistinct(Days, i);
    }
  }

  /** The criteria a month, day and hour filter turn on, or the error
      `load_data` raises for a name it cannot index. */
  function ActiveCriteria(month: string, day: string, hour: HourChoice): (r: Result<seq<Criterion>, LoadError>)
    ensures month != "all" && month !in Months ==> r == Err(UnknownMonth(month))
    ensures (month == "all" || month in Months) && day != "all" && day !in Days ==> r == Err(UnknownDay(day))
    ensures r.Ok? <==> (month == "all" || month in Months) && (day == "all" || day in Days)
    ensures r.Ok? ==> |r.value| <= 3
    ensures r.Ok? ==> |r.value| == (if month == "all" then 0 else 1) + (if day == "all" then 0 else 1)
                                  + (if hour.AtHour? then 1 else 0)
  {
    if month != "all" && MonthNumber(month).None? then Err(UnknownMonth(month))
    else if day != "all" && DayNumber(day).None? then Err(UnknownDay(day))
    else
      Ok((if month == "all" then [] else [MonthIs(MonthNumber(month).value)])
         + (if day == "all" then [] else [DayIs(DayNumber(day).value)])
         + (match hour case AllHours => [] case AtHour(h) => [HourIs(h)]))
  }

  /** What the active criteria ask of a row: its month is the month's list
      position plus one, its day of week the day's position (Monday = 0),
      its start hour the requested hour; `all` asks nothing. */
  lemma ActiveCriteriaMeaning(month: string, day: string, hour: HourChoice, row: Row)
    requires ActiveCriteria(month, day, hour).Ok?
    ensures SatisfiesAll(row, ActiveCriteria(month, day, hour).value) <==>
      (month == "all" || row.month == IndexOf(Months, month).value + 1) &&
      (day == "all" || row.dayOfWeek == IndexOf(Days, day).value) &&
      (hour.AtHour? ==> row.startHour == hour.h)
  {
    var cm: seq<Criterion> := if month == "all" then [] else [MonthIs(MonthNumber(month).value)];
    var cd: seq<Criterion> := if day == "all" then [] else [DayIs(DayNumber(day).value)];
    var ch: seq<Criterion> := match hour case AllHours => [] case AtHour(h) => [HourIs(h)];
    assert ActiveCriteria(month, day, hour).value == cm + cd + ch;
    SatisfiesAllConcat(row, cm + cd, ch);
    SatisfiesAllConcat(row, cm, cd);
    SatisfiesAllSingle(row, cm);
    SatisfiesAllSingle(row, cd);
    SatisfiesAllSingle(row, ch);
  }

  lemma SatisfiesAllConcat(row: Row, a: seq<Criterion>, b: seq<Criterion>)
    ensures SatisfiesAll(row, a + b) <==> SatisfiesAll(row, a) && SatisfiesAll(row, b)
  {
    if SatisfiesAll(row, a) && SatisfiesAll(row, b) {
      forall i | 0 <= i < |a + b| ensures Satisfies(row, (a + b)[i]) {
        if i >= |a| { assert (a + b)[i] == b[i - |a|]; }
      }
    }
    if SatisfiesAll(row, a + b) {
      forall i | 0 <= i < |a| ensures Satisfies(row, a[i]) {
        assert (a + b)[i] == a[i];
      }
      forall i | 0 <= i < |b| ensures Satisfies(row, b[i]) {
        assert (a + b)[i + |a|] == b[i];
      }
    }
  }

  lemma SatisfiesAllSingle(row: Row, cs: seq<Criterion>)
    requires |cs| <= 1
    ensures SatisfiesAll(row, cs) <==> (cs == [] || Satisfies(row, cs[0]))
  {
  }

  /** Criteria that `get_filters` resolved never make the loader fail. */
  lemma ResolvedCriteriaLoad(c: Criteria)
    requires ValidCriteria(c)
    ensures ActiveCriteria(c.month, c.day, c.hour).Ok?
  {
  }

  /** `load_data` on an already read table: filter by month, then by day,
      then by hour, each only when it is not `all`. A month or day name
      outside the lists is an error (month checked first); otherwise the
      result is the one-pass filter by the active criteria. */
  method LoadData(table: seq<Row>, month: string, day: string, hour: HourChoice)
    returns (r: Result<seq<Row>, LoadError>)
    ensures month != "all" && month !in Months ==> r == Err(UnknownMonth(month))
    ensures (month == "all" || month in Months) && day != "all" && day !in Days ==> r == Err(UnknownDay(day))
    ensures r.Ok? <==> (month == "all" || month in Months) && (day == "all" || day in Days)
    ensures r.Ok? ==> ActiveCriteria(month, day, hour).Ok? &&
                      r.value == FilterAll(table, ActiveCriteria(month, day, hour).value)
  {
    ghost var cm: seq<Criterion> := [];
    ghost var cd: seq<Criterion> := [];
    ghost var ch: seq<Criterion> := [];
    var df := table;
    if month != "all" {
      var m := MonthNumber(month);
      if m.None? {
        return Err(UnknownMonth(month));
      }
      cm := [MonthIs(m.value)];
      KeepEachSnoc(table, [], MonthIs(m.value));
      assert [] + cm == cm;
      df := Keep(df, MonthIs(m.value));
    }
    assert df == KeepEach(table, cm);
    if day != "all" {
      var d := DayNumber(day);
      if d.None? {
        return Err(UnknownDay(day));
      }
      cd := [DayIs(d.value)];
      KeepEachSnoc(table, cm, DayIs(d.value));
      df := Keep(df, DayIs(d.value));
    } else {
      assert cm + cd == cm;
    }
    assert df == KeepEach(table, cm + cd);
    if hour.AtHour? {
      ch := [HourIs(hour.h)];
      KeepEachSnoc(table, cm + cd, HourIs(hour.h));
      df := Keep(df, HourIs(hour.h));
    } else {
      assert cm + cd + ch == cm + cd;
    }
    assert df == KeepEach(table, cm + cd + ch);
    assert ActiveCriteria(month, day, hour) == Ok(cm + cd + ch);
    KeepEachIsFilterAll(table, cm + cd + ch);
    r := Ok(df);
  }
}
