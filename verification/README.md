# Volleyball league signup watcher — verified model

A Dafny model of `vb-signups.py`, a script that polls a recreational-sports
league API, keeps the leagues played on a configured weekday at a configured
play level, compares them with the leagues saved by the previous poll, and
announces the ones still worth signing up for.

The model is a pipeline of pure functions over an immutable `League` record:

- `Calendar` — `day_of_week`: parsing `YYYY-MM-DD` into a proleptic Gregorian
  date (leap years, month lengths, year range 1..9999 as in `datetime`), the
  day number `date.toordinal()` gives, and the lower-case weekday name.
- `Leagues` — the league record, `refine_league` (weekday, `is_full`,
  `open_slots`), refinement of the whole response, and the day/level filter
  of `main`.
- `Updates` — `check_for_updates` with Python dict semantics: the dict built
  from a list keeps the last record of each name, and iterates names in order
  of first insertion. The function returns the announced records in order
  instead of printing them.
- `Fetch` — the retry loop of `fetch_league_data` over abstract request
  outcomes, returning the delays it would sleep.
- `Cycle` — one run of `main` as a transition on the result store.

The module-level settings (`RETRY_ATTEMPTS`, `RETRY_DELAY`, `PLAY_LEVEL`,
`DAY`, `STATUS`) are fields of `Cycle.Config`; `Cycle.ShippedConfig` holds the
values as shipped.

The model follows the code where the system's intended behaviour has been
described differently:

- The code compares `play_level` case-sensitively and never lower-cases it,
  although a case-insensitive match has been described.
- The code stores no signup URL in the record. It only prints one.
- The code announces in the order names first occur in the fetched data, not
  grouped by weekday.

The change detector tests the STORED record's status against `STATUS`. So a
league that stays open is announced again on every run. The model keeps that
behaviour; `Cycle.RepeatedRun` states it.

The sleep after a failed request also follows the final failed attempt
(vb-signups.py:28). So three failures sleep `7 * RETRY_DELAY` seconds in all
before the function gives up, and the model keeps that.

## Model

| member | source | states |
|---|---|---|
| Calendar.ParseDate | vb-signups.py:56 | a string that parses yields a date `datetime` accepts: year 1..9999, month 1..12, day within the month's length |
| Calendar.ParseDateAcceptsExactly | vb-signups.py:56 | the parser accepts a string exactly when it is the zero-padded `%Y-%m-%d` text of some valid date |
| Calendar.ParseFormatDate | vb-signups.py:56 | every valid date printed as `%Y-%m-%d` parses back to itself |
| Calendar.FormatParseDate | vb-signups.py:56 | a string that parses is the canonical text of the date it parses to, so no two strings denote one date |
| Calendar.MonthThirteenRejected | vb-signups.py:56 | month 13 makes `day_of_week` fail |
| Calendar.LeapDayRejectedInCommonYear | vb-signups.py:56 | 29 February of a common year makes `day_of_week` fail |
| Calendar.LeapDayAcceptedInLeapYear | vb-signups.py:56 | 29 February of a leap year is accepted |
| Calendar.LeapYearsStep | vb-signups.py:56-57 | the count of leap years up to a year grows by one exactly at a leap year (divisible by 4, not by 100 unless by 400) |
| Calendar.DaysBeforeNextYear | vb-signups.py:56-57 | the day count at the start of a year grows by 366 after a leap year and by 365 after a common one |
| Calendar.DaysBeforeMonthFullYear | vb-signups.py:56-57 | the twelve month lengths of a year add up to its 365 or 366 days |
| Calendar.NextDateOrdinal | vb-signups.py:56-57 | the calendar day after a valid date (other than 9999-12-31) is valid and has a day number one higher |
| Calendar.NextDateWeekday | vb-signups.py:57 | consecutive dates fall on consecutive weekdays, Sunday wrapping to Monday |
| Calendar.DayOfWeek | vb-signups.py:55-57 | `day_of_week` fails exactly when the date does not parse; otherwise it yields one of the seven weekday names, all lower-case letters |
| Calendar.DayOfWeekConsecutive | vb-signups.py:55-57 | the weekday name of a date's text is that date's weekday, and the next date's text names the next weekday modulo 7 |
| Calendar.NewYear2024IsMonday | vb-signups.py:55-57 | "2024-01-01" is a Monday, which anchors the day count to the real calendar |
| Leagues.RefineLeague | vb-signups.py:59-63 | refinement fails exactly when the start date does not parse; otherwise the stored weekday is the one `day_of_week` gives for `start_date`, only the derived fields change, `open_slots + teams == team_size` with no clamping, and `is_full` holds exactly when `open_slots <= 0` |
| Leagues.RefineAll | vb-signups.py:70 | refining the rows succeeds exactly when every row refines; the result then has one refined record per row, in order |
| Leagues.FilterLeagues | vb-signups.py:72 | every kept record matches weekday and play level exactly, and each matching record is kept as often as it occurs in the input |
| Leagues.FilterMembership | vb-signups.py:72 | a record is kept exactly when it is in the input and matches |
| Leagues.FilterConcat | vb-signups.py:72 | filtering keeps input order: the filter of a concatenation is the concatenation of the filters |
| Leagues.FilterIdempotent | vb-signups.py:72 | filtering a filtered list changes nothing |
| Updates.Index | vb-signups.py:47-48 | the dict built from a list has exactly the list's names as keys, each mapped to a record carrying that name |
| Updates.IndexHoldsLast | vb-signups.py:47-48 | the dict maps every name to the last record in the list carrying it |
| Updates.KeyOrder | vb-signups.py:48 | the dict's iteration order lists exactly the names of the list |
| Updates.KeyOrderByFirstOccurrence | vb-signups.py:48 | that order has no repeated name and follows the position where each name first occurs |
| Updates.AnnounceFromSpec | vb-signups.py:51-53 | the loop emits, for each key that passes the status test, the dict's record for it and nothing else, with no name twice when the keys are distinct |
| Updates.AnnounceFrom | vb-signups.py:51-53 | the loop emits at most one record per key; each emitted record carries one of its keys, is the dict's record for that key, and that key passes the status test |
| Updates.CheckForUpdates | vb-signups.py:46-53 | no more announcements than fetched records, no name announced twice, and every announced record is one of the fetched records |
| Updates.KeyOrderLength | vb-signups.py:48 | the dict has no more keys than the list has records |
| Updates.AnnounceFromOrdered | vb-signups.py:51-53 | the loop emits records in the order of its keys |
| Updates.CheckForUpdatesAnnouncesExactly | vb-signups.py:46-52 | a name is announced exactly when it occurs in the new data and is absent from the old data or the last old record with that name has status `STATUS` |
| Updates.CheckForUpdatesRecords | vb-signups.py:48-53 | no name is announced twice, and the record announced for a name is the last new record carrying it |
| Updates.CheckForUpdatesOrder | vb-signups.py:48-53 | announcements follow the order in which names first occur in the new data |
| Updates.CheckForUpdatesEmptyPrevious | vb-signups.py:51-52 | with nothing stored, every name of the new data is announced |
| Updates.ReannouncedWhileOpen | vb-signups.py:52 | with `{A}` stored at status `STATUS` and `{A, B}` fetched, both A and B are announced |
| Updates.NotReannouncedOtherwise | vb-signups.py:52 | with `{A}` stored at another status and `{A}` fetched, nothing is announced |
| Updates.SingleLeagueAnnounced | vb-signups.py:51-53 | with nothing stored, a single fetched league is announced |
| Fetch.FetchLeagueData | vb-signups.py:20-30 | at most `RETRY_ATTEMPTS` requests; the result is the body of the first successful attempt, and None exactly when every attempt fails; the sleep after failed attempt k is `RETRY_DELAY * 2^k` |
| Fetch.BackoffIsPower | vb-signups.py:28 | doubling the delay at each attempt gives `RETRY_DELAY * 2 ** attempt` |
| Fetch.ScheduleDelays | vb-signups.py:28 | the k-th delay of the schedule is `RETRY_DELAY * 2^k` |
| Fetch.TotalBackoff | vb-signups.py:21-28 | the delays after n failures add up to `RETRY_DELAY * (2^n - 1)` |
| Fetch.ThreeFailuresBackoff | vb-signups.py:21-28 | three failures sleep the base delay, then twice it, then four times it: seven times the base delay in all |
| Cycle.AsciiLower | vb-signups.py:13 | lower-casing keeps the length, maps each upper-case ASCII letter to its lower-case letter (code point plus 32), leaves every other character alone, and leaves no upper-case ASCII letter |
| Cycle.AsciiLowerFixesLowerCase | vb-signups.py:13 | a string with no upper-case letter is its own lower-case form |
| Cycle.ShippedDayIsFriday | vb-signups.py:13 | the shipped `DAY`, lower-cased where it is defined, is "friday", one of the names `day_of_week` yields |
| Cycle.Transition | vb-signups.py:65-79 | a failed fetch or a date that does not parse leaves the store unchanged and announces nothing; a completed run announces the comparison of the new list with the stored one and stores exactly the day/level filter of the refined rows |
| Cycle.TransitionStoresFiltered | vb-signups.py:70-79 | after a completed run a record is stored exactly when it matches the filter and is the refinement of a fetched row |
| Cycle.TransitionReplacesStore | vb-signups.py:79 | the new store does not depend on the old one: saving replaces and never merges |
| Cycle.RepeatedRun | vb-signups.py:76-79 | running again on the same data keeps the store and re-announces exactly the stored leagues at status `STATUS` |
| Cycle.RunMain | vb-signups.py:65-68 | when every attempt fails, the store is unchanged, nothing is announced and the full backoff schedule is slept; otherwise the run is the transition on the body of the first successful attempt k, after sleeping the backoff schedule of the k failures before it |
| Cycle.RefineSingle | vb-signups.py:70 | a one-row response refines to the one refined record |
| Cycle.MondayScenario | vb-signups.py:65-79 | a Monday league with 3 of 6 teams at the wanted level and an empty store is announced with 3 open slots and stored with weekday "monday" |

## Left out

- HTTP transport (`requests.get`, `raise_for_status`, the 10-second timeout) and JSON decoding of the response. Each request's outcome is a parameter `respond(k)`, and a successful body is already the list `data.rows`.
- `time.sleep` and real time. The model returns the list of delays instead of sleeping.
- File I/O and JSON in `load_previous_results` and `save_results`. The store is a sequence of records, and a missing or corrupt file is the empty sequence.
- `datetime.now()` and building `API_URL` from the current date and `SPORT`. Both depend on the environment and only format strings.
- All `print` output, including the signup-URL line. `CheckForUpdates` returns the announced records instead.
- Calendar.ParseDate: accepts only the zero-padded `YYYY-MM-DD` form with ASCII digits. `strptime` also accepts one-digit months and days, a space-padded day, and non-ASCII decimal digits, so the model rejects some strings the program accepts.
- Calendar.DayOfWeek: assumes the C/English locale for `%A`. Other locales print other weekday names.
- Cycle.AsciiLower: lower-cases ASCII letters only. Python's `str.lower` also maps other Unicode letters, but the shipped `DAY` is ASCII.
- Missing fields in a league record. The record type always has every field, so no `KeyError` is modelled. In the program, every fetched row is read for `start_date`, `teams` and `team_size` (vb-signups.py:60-62). `play_level` is read only for rows whose weekday is `DAY`, because `and` short-circuits (vb-signups.py:72). `name` is read only for filtered new records and stored records (vb-signups.py:47-48). `status` is read only from a stored record whose name is fetched again (vb-signups.py:52). `open_slots`, `id` and `sport.id` are read only when printing an announcement (vb-signups.py:53).
- Cycle.RunMain: a response body decoding to JSON `null` also makes `main` return early. The model has no such body.
