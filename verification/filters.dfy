/** Resolving the user's filter criteria (`get_filters`): each typed value is
    lower-cased and accepted only if it belongs to a fixed list; the hour is
    an integer in 0..23 or the word `all`. Console input is a finite sequence
    of lines; running out of lines stands for the end of input. */
module Filters {
  import opened Wrappers
  import opened PyText

  /** The city to data-file table. */
  const CityData: map<string, string> :=
    map["chicago" := "chicago.csv",
        "new york city" := "new_york_city.csv",
        "washington" := "washington.csv"]

  /** The keys of `CityData`, in their order. */
  const CityNames: seq<string> := ["chicago", "new york city", "washington"]

  const ValidMonths: seq<string> :=
    ["all", "january", "february", "march", "april", "may", "june"]

  const ValidDays: seq<string> :=
    ["all", "monday", "tuesday", "wednesday", "thursday", "friday", "saturday", "sunday"]

  /** The hour filter: every hour, or one hour of the day. */
  datatype HourChoice = AllHours | AtHour(h: int)

  /** The four resolved criteria handed to the loader. */
  datatype Criteria = Criteria(city: string, month: string, day: string, hour: HourChoice)

  predicate ValidHour(hour: HourChoice)
  {
    hour.AtHour? ==> 0 <= hour.h <= 23
  }

  /** Every criterion is a member of its legal domain. */
  predicate ValidCriteria(c: Criteria)
  {
    c.city in CityData && c.month in ValidMonths && c.day in ValidDays && ValidHour(c.hour)
  }

  predicate AllLowerCase(choices: seq<string>)
  {
    forall i :: 0 <= i < |choices| ==> IsLowerCase(choices[i])
  }

  lemma CityNamesLowerCase()
    ensures AllLowerCase(CityNames)
  {
  }

  lemma MonthsLowerCase()
    ensures AllLowerCase(ValidMonths)
  {
  }

  lemma DaysLowerCase()
    ensures AllLowerCase(ValidDays)
  {
  }

  lemma ListsAreLowerCase()
    ensures AllLowerCase(CityNames) && AllLowerCase(ValidMonths) && AllLowerCase(ValidDays)
  {
    CityNamesLowerCase();
    MonthsLowerCase();
    DaysLowerCase();
  }

  lemma CityNamesAreKeys()
    ensures forall c :: c in CityData <==> c in CityNames
  {
  }

  /** One prompt for city, month or day: the typed text is accepted exactly
      when it equals a listed choice up to case, and what is kept is that
      choice. Matching is whole-text equality, never a prefix. */
  function ResolveChoice(input: string, choices: seq<string>): (r: Option<string>)
    requires AllLowerCase(choices)
    ensures r.Some? <==> exists i :: 0 <= i < |choices| && EqualFold(input, choices[i])
    ensures r.Some? ==> r.value in choices && EqualFold(input, r.value)
  {
    var lowered := Lower(input);
    if lowered in choices then
      Some(lowered)
    else
      assert forall i :: 0 <= i < |choices| && EqualFold(input, choices[i]) ==> lowered == choices[i] by {
        forall i | 0 <= i < |choices| && EqualFold(input, choices[i]) {
          LowerUnique(input, choices[i]);
        }
      }
      None
  }

  /** The city prompt: an accepted city is a key of `CityData`. */
  function ResolveCity(input: string): (r: Option<string>)
    ensures r.Some? <==> exists i :: 0 <= i < |CityNames| && EqualFold(input, CityNames[i])
    ensures r.Some? ==> r.value in CityData && IsLowerCase(r.value) && EqualFold(input, r.value)
  {
    ListsAreLowerCase();
    CityNamesAreKeys();
    ResolveChoice(input, CityNames)
  }

  function ResolveMonth(input: string): (r: Option<string>)
    ensures r.Some? <==> exists i :: 0 <= i < |ValidMonths| && EqualFold(input, ValidMonths[i])
    ensures r.Some? ==> r.value in ValidMonths && EqualFold(input, r.value)
  {
    ListsAreLowerCase();
    ResolveChoice(input, ValidMonths)
  }

  function ResolveDay(input: string): (r: Option<string>)
    ensures r.Some? <==> exists i :: 0 <= i < |ValidDays| && EqualFold(input, ValidDays[i])
    ensures r.Some? ==> r.value in ValidDays && EqualFold(input, r.value)
  {
    ListsAreLowerCase();
    ResolveChoice(input, ValidDays)
  }

  /** The hour prompt: text that `int()` reads is accepted when the number
      is in 0..23; text it cannot read is accepted only when it is `all` in
      some case. */
  function ResolveHour(input: string): (r: Option<HourChoice>)
    ensures r == Some(AllHours) <==> EqualFold(input, "all")
    ensures r.Some? && r.value.AtHour? <==> ParseInt(input).Some? && 0 <= ParseInt(input).value <= 23
    ensures r.Some? && r.value.AtHour? ==> ParseInt(input) == Some(r.value.h)
  {
    AllIsNotANumber(input);
    LowerIsAll(input);
    match ParseInt(input)
    case Some(h) => if 0 <= h <= 23 then Some(AtHour(h)) else None
    case None => if Lower(input) == "all" then Some(AllHours) else None
  }

  /** Every hour of the day, typed as `str(h)`, is accepted as that hour. */
  lemma EveryHourAccepted(h: int)
    requires 0 <= h <= 23
    ensures ResolveHour(ShowInt(h)) == Some(AtHour(h))
  {
    assert |ShowNat(h)| <= 2;
    ParseShowInt(h);
  }

  /** Typing a choice in any case resolves to the choice itself. */
  lemma ChoiceAnyCase(input: string, i: nat)
    requires i < |ValidMonths| && EqualFold(input, ValidMonths[i])
    ensures ResolveMonth(input) == Some(ValidMonths[i])
  {
    ListsAreLowerCase();
    LowerUnique(input, ValidMonths[i]);
  }

  /** One prompt loop over the lines from position `from`: the first
      accepted line's resolution and the position just after it. Every line
      before it was rejected; with no line accepted, all remaining lines are
      consumed and the result is `None`. */
  function FirstAccepted<T>(inputs: seq<string>, from: nat, resolve: string -> Option<T>): (res: (Option<T>, nat))
    requires from <= |inputs|
    ensures from <= res.1 <= |inputs|
    ensures res.0.Some? ==> from < res.1 && resolve(inputs[res.1 - 1]) == res.0
    ensures res.0.None? ==> res.1 == |inputs|
    decreases |inputs| - from
  {
    if from == |inputs| then (None, from)
    else if resolve(inputs[from]).Some? then (resolve(inputs[from]), from + 1)
    else FirstAccepted(inputs, from + 1, resolve)
  }

  /** Every line the prompt loop read before the accepted one, and every
      line when none was accepted, was rejected. */
  lemma {:induction false} FirstAcceptedRejects<T>(inputs: seq<string>, from: nat, resolve: string -> Option<T>)
    requires from <= |inputs|
    ensures var res := FirstAccepted(inputs, from, resolve);
      forall j :: from <= j < res.1 && (res.0.None? || j < res.1 - 1) ==> resolve(inputs[j]).None?
    decreases |inputs| - from
  {
    if from < |inputs| && resolve(inputs[from]).None? {
      FirstAcceptedRejects(inputs, from + 1, resolve);
    }
  }

  /** Once a line is accepted, lines typed after the stream ends do not
      change what the prompt loop returns. */
  lemma {:induction false} FirstAcceptedExtend<T>(inputs: seq<string>, more: seq<string>, from: nat, resolve: string -> Option<T>)
    requires from <= |inputs| && FirstAccepted(inputs, from, resolve).0.Some?
    ensures FirstAccepted(inputs + more, from, resolve) == FirstAccepted(inputs, from, resolve)
    decreases |inputs| - from
  {
    assert (inputs + more)[from] == inputs[from];
    if resolve(inputs[from]).None? {
      FirstAcceptedExtend(inputs, more, from + 1, resolve);
    }
  }

  /** The four prompts of `get_filters` chained on one stream of lines: each
      prompt starts at the line after the one its predecessor accepted. The
      result is `None` when some prompt runs out of lines; the number is the
      count of lines read. */
  function ResolveAll(inputs: seq<string>): (res: (Option<Criteria>, nat))
    ensures res.1 <= |inputs|
    ensures res.0.Some? ==> ValidCriteria(res.0.value) && 4 <= res.1
    ensures res.0.None? ==> res.1 == |inputs|
  {
    var (city, c) := FirstAccepted(inputs, 0, ResolveCity);
    if city.None? then (None, c) else
    var (month, m) := FirstAccepted(inputs, c, ResolveMonth);
    if month.None? then (None, m) else
    var (day, d) := FirstAccepted(inputs, m, ResolveDay);
    if day.None? then (None, d) else
    var (hour, h) := FirstAccepted(inputs, d, ResolveHour);
    if hour.None? then (None, h) else
    assert ResolveCity(inputs[c - 1]) == city && ResolveMonth(inputs[m - 1]) == month;
    assert ResolveDay(inputs[d - 1]) == day && ResolveHour(inputs[h - 1]) == hour;
    (Some(Criteria(city.value, month.value, day.value, hour.value)), h)
  }

  /** Four lines, each accepted by its own prompt, are the whole dialogue:
      the criteria are their resolutions and exactly four lines are read. */
  lemma ResolveAllFirstTry(inputs: seq<string>)
    requires |inputs| >= 4
    requires ResolveCity(inputs[0]).Some? && ResolveMonth(inputs[1]).Some?
    requires ResolveDay(inputs[2]).Some? && ResolveHour(inputs[3]).Some?
    ensures ResolveAll(inputs) ==
      (Some(Criteria(ResolveCity(inputs[0]).value, ResolveMonth(inputs[1]).value,
                     ResolveDay(inputs[2]).value, ResolveHour(inputs[3]).value)), 4)
  {
  }

  /** Lines after the dialogue is complete are never read. */
  lemma ResolveAllIgnoresRest(inputs: seq<string>, more: seq<string>)
    requires ResolveAll(inputs).0.Some?
    ensures ResolveAll(inputs + more) == ResolveAll(inputs)
  {
    var (city, c) := FirstAccepted(inputs, 0, ResolveCity);
    FirstAcceptedExtend(inputs, more, 0, ResolveCity);
    var (month, m) := FirstAccepted(inputs, c, ResolveMonth);
    FirstAcceptedExtend(inputs, more, c, ResolveMonth);
    var (day, d) := FirstAccepted(inputs, m, ResolveDay);
    FirstAcceptedExtend(inputs, more, m, ResolveDay);
    FirstAcceptedExtend(inputs, more, d, ResolveHour);
  }

  /** A rejected month line is skipped and the next month line is used; the
      city already accepted is kept. */
  lemma ResolveAllRetry()
    ensures ResolveAll(["washington", "chicago", "all", "all", "all"]) ==
      (Some(Criteria("washington", "all", "all", AllHours)), 5)
  {
    var inputs := ["washington", "chicago", "all", "all", "all"];
    ListsAreLowerCase();
    LowerUnique("washington", "washington");
    LowerUnique("all", "all");
    assert ResolveCity(inputs[0]) == Some("washington");
    assert ResolveMonth(inputs[1]).None? by {
      assert Lower("chicago") == "chicago";
    }
    assert ResolveMonth(inputs[2]) == Some("all");
    assert ResolveDay(inputs[3]) == Some("all");
    assert ResolveHour(inputs[4]) == Some(AllHours);
    assert FirstAccepted(inputs, 0, ResolveCity) == (Some("washington"), 1);
    assert FirstAccepted(inputs, 2, ResolveMonth) == (Some("all"), 3);
    assert FirstAccepted(inputs, 1, ResolveMonth) == (Some("all"), 3);
    assert FirstAccepted(inputs, 3, ResolveDay) == (Some("all"), 4);
    assert FirstAccepted(inputs, 4, ResolveHour) == (Some(AllHours), 5);
  }

  /** A prompt loop: read lines from position `from` until one is accepted,
      as `FirstAccepted` describes. */
  method ReadUntilAccepted<T>(inputs: seq<string>, from: nat, resolve: string -> Option<T>)
    returns (r: Option<T>, next: nat)
    requires from <= |inputs|
    ensures (r, next) == FirstAccepted(inputs, from, resolve)
    ensures from <= next <= |inputs|
    ensures r.Some? ==> from < next && resolve(inputs[next - 1]) == r
    ensures r.Some? ==> forall j :: from <= j < next - 1 ==> resolve(inputs[j]).None?
    ensures r.None? ==> next == |inputs| && forall j :: from <= j < |inputs| ==> resolve(inputs[j]).None?
  {
    next := from;
    r := None;
    while next < |inputs|
      invariant from <= next <= |inputs|
      invariant forall j :: from <= j < next ==> resolve(inputs[j]).None?
      invariant FirstAccepted(inputs, next, resolve) == FirstAccepted(inputs, from, resolve)
    {
      var answer := resolve(inputs[next]);
      next := next + 1;
      if answer.Some? {
        r := answer;
        return;
      }
    }
  }

  /** `get_filters`: city, month, day and hour, each read by its own prompt
      loop from one stream of lines, exactly as `ResolveAll` chains them.
      Whatever it returns is valid; it gives up only when the lines run out. */
  method GetFilters(inputs: seq<string>) returns (r: Option<Criteria>, used: nat)
    ensures (r, used) == ResolveAll(inputs)
    ensures used <= |inputs|
    ensures r.Some? ==> ValidCriteria(r.value)
    ensures r.None? ==> used == |inputs|
    ensures r.Some? ==> exists i :: 0 <= i < used && ResolveCity(inputs[i]) == Some(r.value.city)
    ensures r.Some? ==> exists i :: 0 <= i < used && ResolveMonth(inputs[i]) == Some(r.value.month)
    ensures r.Some? ==> exists i :: 0 <= i < used && ResolveDay(inputs[i]) == Some(r.value.day)
    ensures r.Some? ==> exists i :: 0 <= i < used && ResolveHour(inputs[i]) == Some(r.value.hour)
  {
    var city, month, day, hour;
    city, used := ReadUntilAccepted(inputs, 0, ResolveCity);
    if city.None? { return None, used; }
    assert ResolveCity(inputs[used - 1]) == city;
    month, used := ReadUntilAccepted(inputs, used, ResolveMonth);
    if month.None? { return None, used; }
    assert ResolveMonth(inputs[used - 1]) == month;
    day, used := ReadUntilAccepted(inputs, used, ResolveDay);
    if day.None? { return None, used; }
    assert ResolveDay(inputs[used - 1]) == day;
    hour, used := ReadUntilAccepted(inputs, used, ResolveHour);
    if hour.None? { return None, used; }
    assert ResolveHour(inputs[used - 1]) == hour;
    r := Some(Criteria(city.value, month.value, day.value, hour.value));
  }
}
