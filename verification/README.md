# US bikeshare explorer: a verified model of its filtering and statistics

`bikeshare_2.py` is an interactive script that asks for a city, a month, a
day of the week and a start hour, loads that city's trip table, keeps the
trips that match, and prints the most common travel times and stations, the
total and mean trip duration, and user statistics, with an option to page
through the raw rows. This project models the logic under the prompts and
the pandas calls, and proves what it promises:

- `wrappers.dfy`: `Option` and `Result`. A `None` stands for the end of
  console input or for an empty column; an `Err` stands for the `ValueError`
  that `list.index` raises.
- `sequences.dfy`: occurrence counts and order-preserving subsequences.
- `pytext.dfy`: Python's `str.lower()` and base-10 `int(str)` on ASCII text.
  This covers white space stripping, an optional sign, `_` between digits
  and the limit of 4300 digits. It is proved that `int(str(n)) == n` for
  every integer of at most 4300 digits.
- `filters.dfy`: `get_filters`. Each prompt is a resolver from one typed
  line to an accepted value. A prompt loop reads a finite sequence of lines
  until one is accepted; `FirstAccepted` says which line that is and
  `ReadUntilAccepted` is the loop. `ResolveAll` chains the four prompts, each
  starting after the line its predecessor accepted. `GetFilters` computes
  exactly that chain and only ever returns members of the legal domains.
- `loading.dfy`: `load_data` on an already read table whose rows carry the
  derived `month`, `day_of_week` and `start_hour`. It filters by month, then
  by day, then by hour. The result is proved equal to a one-pass reference
  filter. That gives an order-preserving subsequence in which every kept row
  meets every active criterion and every matching row is kept. The filters
  commute and are idempotent. Criteria from `get_filters` never make the
  month or day lookup fail.
- `stats.dfy`: the modes behind `time_stats` and `station_stats`, the
  `Trip` key, which is injective when start stations contain no `>`, and
  the days/hours/minutes/seconds split of a duration in
  `trip_duration_stats`, proved exact and unique.
- `pager.dfy`: `display_panda`. Every `yes` shows the next window of five
  rows. The pages shown, put together, are a prefix of the table.

Facts about the code that the model keeps:
- The city key is `new york city`, with spaces (bikeshare_2.py:6).
- On an empty table `mode()[0]` raises, so the statistics do not degrade
  gracefully. `TimeStats` and `StationStats` return `None` for an empty
  table.
- The code relies on no particular tie-break among equally common values.
- `start_hour` is derived after the month and day filters
  (bikeshare_2.py:107-108). This does not change the result, since the
  derived fields are given with each row.

## Model

| member | source | states |
|---|---|---|
| `PyText.Lower` | bikeshare_2.py:28 | the lower-cased text has no upper-case letter and equals the input up to case |
| `PyText.LowerUnique` | bikeshare_2.py:28 | the lower-cased text is the only lower-case text equal to the input up to case |
| `PyText.LowerIdempotent` | bikeshare_2.py:37 | lower-casing an already lower-cased answer changes nothing |
| `PyText.LowerFold` | bikeshare_2.py:46 | two answers that differ only in case lower-case to the same text |
| `PyText.TrimLeft` | bikeshare_2.py:54 | `int()` skips leading white space: the result is a suffix, starts with no space, and only spaces were dropped |
| `PyText.TrimRight` | bikeshare_2.py:54 | `int()` skips trailing white space: the result is a prefix, ends with no space, and only spaces were dropped |
| `PyText.ParseInt` | bikeshare_2.py:54 | text that `int()` accepts holds only white space, digits, `_` and signs, so `all` or any word is a ValueError |
| `PyText.ShowInt` | bikeshare_2.py:51-54 | the decimal text of an integer is non-empty, starts with `-` exactly for a negative number and is otherwise digits |
| `PyText.LeadingZerosCount` | bikeshare_2.py:54 | the 4300-digit limit of `int()` counts leading zeros: `5` after k zeros reads as 5 exactly when k < 4300 |
| `PyText.AllIsNotANumber` | bikeshare_2.py:53-58 | `all` in any case is a ValueError for `int()`, so it reaches the `all` check |
| `PyText.LowerIsAll` | bikeshare_2.py:56-57 | the lowered answer is `all` exactly when the answer is `all` in some case |
| `PyText.ParseShowInt` | bikeshare_2.py:54 | `int()` reads back the decimal text of every integer of at most 4300 digits, negative ones included, and rejects longer ones |
| `Filters.ResolveChoice` | bikeshare_2.py:34-50 | an answer is accepted exactly when it equals a listed choice up to case (whole-text equality, no prefix), and the kept value is that choice |
| `Filters.ResolveCity` | bikeshare_2.py:25-32 | an accepted city is a lower-case key of the city-to-file table and equals the typed text up to case; all other text is rejected |
| `Filters.ResolveMonth` | bikeshare_2.py:34-41 | an accepted month is `all` or january..june, equal to the typed text up to case; all other text is rejected |
| `Filters.ResolveDay` | bikeshare_2.py:43-50 | an accepted day is `all` or monday..sunday, equal to the typed text up to case; all other text is rejected |
| `Filters.ResolveHour` | bikeshare_2.py:51-64 | `all` in any case is accepted as every hour; text `int()` reads is accepted exactly when its value is 0..23; everything else is rejected |
| `Filters.EveryHourAccepted` | bikeshare_2.py:51-62 | every hour 0..23 typed as its decimal text is accepted as that hour |
| `Filters.ChoiceAnyCase` | bikeshare_2.py:35-39 | a month typed in any case resolves to the listed month |
| `Filters.FirstAccepted` | bikeshare_2.py:25-32 | from a given line on, the first accepted line's resolution and the position after it; with none accepted, nothing and the end of input |
| `Filters.FirstAcceptedRejects` | bikeshare_2.py:25-32 | every line read before the accepted one, and every line when none is accepted, was rejected |
| `Filters.FirstAcceptedExtend` | bikeshare_2.py:25-32 | once a line is accepted, lines after the end of the stream do not change the result |
| `Filters.ReadUntilAccepted` | bikeshare_2.py:25-32 | the prompt loop returns what `FirstAccepted` describes: the first accepted line and the position after it, every earlier line rejected; with no accepted line it consumes all input |
| `Filters.ResolveAll` | bikeshare_2.py:10-66 | the four prompts chained, each from the line after its predecessor's accepted one: the criteria returned are valid and at least four lines were read; nothing is returned only when input runs out |
| `Filters.ResolveAllFirstTry` | bikeshare_2.py:10-66 | four lines each accepted by its own prompt give the criteria they resolve to, after exactly four lines |
| `Filters.ResolveAllIgnoresRest` | bikeshare_2.py:10-66 | lines after a completed dialogue are never read |
| `Filters.ResolveAllRetry` | bikeshare_2.py:25-41 | for `washington`, `chicago`, `all`, `all`, `all` the city stays `washington`, `chicago` is rejected as a month, and all five lines are read |
| `Filters.GetFilters` | bikeshare_2.py:10-66 | the criteria and the number of lines read are exactly those of `ResolveAll`; each criterion is a member of its domain and the resolution of a line that was read; it returns nothing only when input runs out |
| `Loading.FilterAll` | bikeshare_2.py:92-111 | the filtered table is an order-preserving subsequence of the table, every row meets every criterion, and each matching row appears as often as in the table |
| `Loading.KeepEachSnoc` | bikeshare_2.py:98-111 | one more `df = df[...]` step after a run of steps filters the previous result |
| `Loading.FilterAllKeep` | bikeshare_2.py:98-105 | filtering by one criterion and then by others equals filtering once by all of them |
| `Loading.FilterAllNoCriteria` | bikeshare_2.py:92-111 | with every filter `all`, the table is returned unchanged |
| `Loading.KeepEachIsFilterAll` | bikeshare_2.py:92-111 | filtering step by step equals the one-pass filter by the conjunction of the criteria |
| `Loading.FilterAllSameCriteria` | bikeshare_2.py:92-111 | the one-pass filter depends only on which criteria are active |
| `Loading.FiltersCommute` | bikeshare_2.py:92-111 | the month, day and hour filters give the same table in any order |
| `Loading.KeepIdempotent` | bikeshare_2.py:98 | applying the same filter twice is applying it once |
| `Loading.Keep` | bikeshare_2.py:98 | one `df[df[column] == value]` step keeps an order-preserving subsequence whose rows all match, each matching row as often as in the table |
| `Loading.IndexOf` | bikeshare_2.py:95 | `list.index` gives the first position of the name, and a ValueError exactly when the name is absent |
| `Loading.IndexOfDistinct` | bikeshare_2.py:94-95 | in a list without repetitions each name is found at its own position |
| `Loading.MonthNumber` | bikeshare_2.py:95 | a month name is numbered exactly when it is in the list, by its position plus one, 1..6 |
| `Loading.DayNumber` | bikeshare_2.py:104 | a day name is numbered exactly when it is in the list, by its position, 0..6 |
| `Loading.ActiveCriteria` | bikeshare_2.py:92-111 | an unknown month name is an error before the day is looked at, then an unknown day name; otherwise exactly one criterion per filter that is not `all`, so at most three |
| `Loading.MonthNumbers` | bikeshare_2.py:94-95 | january..june map to 1..6 |
| `Loading.DayNumbers` | bikeshare_2.py:103-104 | monday..sunday map to 0..6 |
| `Loading.ActiveCriteriaMeaning` | bikeshare_2.py:92-111 | a row passes exactly when its month is the month's index plus one, its day of week the day's index and its start hour the hour, each unless that filter is `all` |
| `Loading.SatisfiesAllConcat` | bikeshare_2.py:92-111 | meeting the month, day and hour criteria together is meeting each group |
| `Loading.ResolvedCriteriaLoad` | bikeshare_2.py:92-105 | criteria returned by `get_filters` never make the month or day lookup raise |
| `Loading.LoadData` | bikeshare_2.py:69-113 | an unknown month (checked first) or day name is an error; otherwise the result is the one-pass filter of the table by the active criteria |
| `Stats.MostCommonAmong` | bikeshare_2.py:123 | the chosen candidate occurs in the column at least as often as every other candidate |
| `Stats.MostCommon` | bikeshare_2.py:123 | `mode()[0]` of a non-empty column is a value of the column that occurs at least as often as any other |
| `Stats.TripKey` | bikeshare_2.py:149 | the key is the start station, then ` -> `, then the end station |
| `Stats.FirstArrow` | bikeshare_2.py:149 | with no `>` in the start station, the first `>` of the key is the separator's |
| `Stats.TripKeyInjective` | bikeshare_2.py:149-151 | with no `>` in either start station, equal keys come from equal station pairs, so the trip mode counts pairs |
| `Stats.TripKeyAmbiguous` | bikeshare_2.py:149 | without that restriction two different station pairs can share one key |
| `Stats.TripColumn` | bikeshare_2.py:149 | the `Trip` column holds the key of each row, in row order |
| `Stats.TimeStats` | bikeshare_2.py:122-130 | an empty table has no statistics; otherwise month, day of week and start hour are each a most common value of their column |
| `Stats.StationStats` | bikeshare_2.py:142-152 | an empty table has no statistics; otherwise start station, end station and trip are each a most common value of their column |
| `Stats.FilteredMonthIsMode` | bikeshare_2.py:92-98 | after filtering to one month, the most common month is that month |
| `Stats.Breakdown` | bikeshare_2.py:167-171 | hours < 24, minutes < 60, seconds < 60, and days, hours, minutes and seconds add back to the total |
| `Stats.BreakdownUnique` | bikeshare_2.py:167-178 | every in-range days/hours/minutes/seconds value is the breakdown of its own total, so the split is unique |
| `Stats.DivModUnique` | bikeshare_2.py:169-171 | a quotient and remainder pair for a positive divisor is the one `//` and `%` give |
| `Stats.BreakdownExample` | bikeshare_2.py:167-171 | 90061 seconds are 1 day, 1 hour, 1 minute and 1 second |
| `Pager.Window` | bikeshare_2.py:223 | the window at position i holds the table's rows i, i+1, … up to five and no further than the end |
| `Pager.PagesCoverPrefix` | bikeshare_2.py:213-224 | the windows shown at 0, 5, 10, … put together are the table's first rows, none skipped or repeated |
| `Pager.DisplayPages` | bikeshare_2.py:211-224 | page k is the window at 5k, shown only after a `yes` answer in any case; the pager stops at the first other answer or when input runs out |

## Left out

- Console I/O: prompt and message wording (bikeshare_2.py:23-65, 216-221) and the restart loop of `main` (bikeshare_2.py:227-239). Input is a finite sequence of lines; running out of lines stands for the end of input.
- CSV loading: reading the file named by the city table and dropping its first column (bikeshare_2.py:81-83). `LoadData` receives the rows already read.
- Timestamp handling: `pd.to_datetime` and the derived `month`, `day_of_week` and `start_hour` (bikeshare_2.py:85-89, 107-108). They belong to a calendar library and are given with each row.
- Timing lines and month/day name rendering through `calendar` (bikeshare_2.py:120-133). These are a wall clock and a library lookup.
- Sum and mean of trip durations (bikeshare_2.py:164-166, 173). `Breakdown` takes a duration as a whole number of seconds; pandas arithmetic and sub-second parts are not modelled.
- `user_stats` (bikeshare_2.py:183-208): the value counts, their printing order, birth year minimum, maximum and mode, and the `KeyError` fallback for a city without Gender and Birth Year are pandas behaviour.
- Stats.MostCommon: does not state pandas' tie-break (the smallest of the tied values). It promises only some value of maximal count.
- PyText.Lower: maps only ASCII letters. Python also lower-cases other letters, for example the Kelvin sign to `k`.
- PyText.ParseInt: reads ASCII digits and white space only. Python's `int()` also reads other Unicode decimal digits and skips other Unicode white space. The 4300-digit limit is Python's default since 3.11 and the 3.10.7, 3.9.14, 3.8.14 and 3.7.14 security releases; releases before those have no limit. Changing it with `sys.set_int_max_str_digits` is not modelled.
- Filters.ResolveHour: inherits the ASCII restriction of `PyText.ParseInt`. An hour typed with non-ASCII digits (Arabic-Indic `٥`, say) or surrounded by non-ASCII white space is accepted by the program and rejected here.
- Filters.ResolveCity: inherits the ASCII restriction of `PyText.Lower`. A city typed with a letter that only full Unicode lower-casing maps to ASCII (the Kelvin sign in place of `k` in `new york city`) is accepted by the program and rejected here. No month or day name is affected.
