# grounding-config: the time-and-schedule engine in Dafny

This project models the controller that lives on a MicroPython board. The board drives one relay from a daily schedule. The schedule is a JSON list of entries `{"t": "HH:MM", "state": "on|off"}`. The controller does four things:

- It normalises the schedule into `(minute, disconnect)` events. The events are sorted by minute, and at a repeated minute the last entry wins.
- It derives the Europe/Oslo local minute-of-day from a UTC clock reading. Summer time runs from 01:00 UTC on the last Sunday of March to 01:00 UTC on the last Sunday of October, as the program computes those days.
- On every new date it drives the relay to the state as of now, and it fires each event once, on the exact minute.
- Once, at local 23:55, it tries to replace the plan with a freshly fetched one.

The model is split into modules:

- `Wrappers` (`wrappers.dfy`): `Option` and `Result`.
- `LocalTime` (`local_time.dfy`): day arithmetic, `_last_sunday`, the summer-time test and `local_minutes_since_midnight`. The UTC reading is a parameter.
- `Schedule` (`schedule.dfy`): `mins` and `parse_events`. This covers `str.split(":")`, `int()`, `str.lower()`, the sort and the compaction loop.
- `Relays` (`relay.dfy`): `Relay`. The pin is a ghost log `levels` of every level written.
- `Scheduling` (`scheduler.dfy`): `Scheduler` as a class with the fields `_triggered`, `_last_date` and `_last_min`. Its pure counterpart is `TickStep`, one tick as a function of the old state.
- `MainLoop` (`main_loop.dfy`): the startup and the body of `while True` in `main.py`. This covers the tick, the refetch guard and the swap of relay and scheduler. The fetch result and whether `Relay(...)` can be built are inputs.
- `Scenarios` (`scenarios.dfy`): worked configurations.

Behaviour of the code worth knowing, with the lines it comes from:

- **The refetch happens at most once per process lifetime, not once a day.** The comment on `REFETCH_MIN` (main.py:15) says "every evening at 23:55". But `last_min` is set to -1 once, before the loop (main.py:30). It becomes 23:55 at the first attempt (main.py:39), and nothing resets it. So the guard at main.py:38 never passes again (`MainLoop.RefetchRun`, `MainLoop.AtMostOneRefetch`).
- **The date is the UTC date.** `local_minutes_since_midnight` shifts only the hour and returns the `(y, mo, d)` of `time.gmtime()` (utils.py:96-98). So the scheduler's date changes at UTC midnight, which is 01:00 or 02:00 local time (`LocalTime.LocalDateIsUtcDate`).
- **An event fires only when a tick sees its exact minute.** The firing loop compares `m == mins_now` (utils.py:205-210). A minute that no tick observes is never caught up, so events at minutes outside 0..1439 (from `"25:00"`, which `mins` accepts at utils.py:100-101) never fire (`Scheduling.ExactlyOncePerDate`, `Scheduling.OutOfDayEventNeverFires`).
- **The "last Sunday" scan tries only days 31 down to 28.** The loop is `range(31, 27, -1)` (utils.py:70). A last Sunday on the 25th to 27th gives day 31 instead. October 2024 is an example (`LocalTime.ScanFindsLateLastSunday`, `LocalTime.October2024Scan`).
- **Wrap-around is computed on the hour.** utils.py:97 wraps the hour modulo 24 rather than the minute-of-day modulo 1440. The results agree for minutes from 0 to 59.
- **A new date does not fire at the minute last processed.** When the first tick of a date has the same minute as `_last_min`, the guard at utils.py:205 skips the firing loop; only the state as of now is applied (utils.py:198-202). `Scheduling.ExactlyOncePerDate` therefore asks that the first minute of a date differ from the last one processed.
- **The startup state is applied by `main.py`, not by the `Scheduler` constructor.** main.py:27-28 drive the relay once. `_last_date` starts as `None` (utils.py:178), so the first tick takes the new-date path (utils.py:198-202) and applies the state a second time (`MainLoop.FreshSchedulerRollsOver`).

## Model

| member | source | states |
|---|---|---|
| Schedule.MinsSplits | utils.py:100-101 | `mins(h, m)` with `0 <= m < 60` divides back into `h` and `m` |
| Schedule.SplitColon | utils.py:126 | `t.split(":")` yields at least one piece and no piece contains a colon |
| Schedule.SplitColonCount | utils.py:126 | there is exactly one more piece than there are colons |
| Schedule.JoinSplitColon | utils.py:126 | joining the pieces with `":"` gives back the original string |
| Schedule.SplitColonPair | utils.py:126 | `a + ":" + b` with colon-free `a`, `b` splits into exactly `[a, b]` |
| Schedule.Lower | utils.py:125 | `lower()` keeps the length and lowers each character on its own |
| Schedule.IsOffSpellings | utils.py:125-128 | the state disconnects iff it is one of the 8 letter-case spellings of "off" |
| Schedule.Trim | utils.py:127 | the result is no longer than the input and neither starts nor ends with white space |
| Schedule.TrimSlice | utils.py:127 | the result is the slice `s[i..j]` with only white space before `i` and after `j`; with `Trim`'s contract, exactly the white space `int()` skips is cut |
| Schedule.ParseInt | utils.py:127 | `int(s)` succeeds iff the trimmed text is an optional sign followed by at least one digit |
| Schedule.NatToString | utils.py:127 | the decimal text of a number is a non-empty string of digits |
| Schedule.DigitsOfNatToString | utils.py:127 | the digit value of `n`'s decimal text is `n` |
| Schedule.ParseIntOfIntToString | utils.py:127 | `int(str(n)) == n` for every integer, negative ones included |
| Schedule.NoColonInIntToString | utils.py:126-127 | `str(n)` contains no colon |
| Schedule.ParseIntTwoDigits | utils.py:127 | a two-digit field parses to `10 * d0 + d1` |
| Schedule.ParseTimeNotTwoFields | utils.py:126 | unpacking `hh, mm` fails with NotTwoFields iff `t` does not hold exactly one colon |
| Schedule.ParseTimeOneColon | utils.py:126-127 | a time with exactly one colon is `a:b` with colon-free fields, and its result is the one `ParseTimeFields` gives; with `ParseTimeNotTwoFields` this decides `ParseTime` on every string |
| Schedule.ParseTimeFields | utils.py:126-127 | for `a:b`, the first field that is not an integer is the error; otherwise the time is `mins(int(a), int(b))` |
| Schedule.ParseTimeOfInts | utils.py:126-127 | two integer fields give minute `mins(h, m)` |
| Schedule.ParseTimeTwoByTwo | utils.py:126-127 | `"HH:MM"` with two digits per field gives `mins(HH, MM)` |
| Schedule.ParseEntry | utils.py:124-129 | a parsed entry disconnects exactly when the lower-cased state (default "off") is "off" |
| Schedule.ParseEntryOfFields | utils.py:124-129 | an entry whose two fields are integers `h` and `m` parses to minute `h * 60 + m` |
| Schedule.ParseEntryOfFormatTime | utils.py:124-129 | `str(h) + ":" + str(m)` parses to minute `h * 60 + m` for every `h` and `m`, with no range check |
| Schedule.ParseEntryDefaults | utils.py:124-125 | a missing `t` is "00:00" and a missing `state` is "off": minute 0, disconnect |
| Schedule.ParseEntryOutOfRange | utils.py:126-128 | "25:00" is accepted as minute 1500 |
| Schedule.ParseEntryNotTwoFields | utils.py:126 | "8" and "1:2:3" are NotTwoFields errors |
| Schedule.ParseAll | utils.py:123-129 | on success there is one event per entry, each the parse of the entry at the same index |
| Schedule.ParseAllSucceeds | utils.py:123-129 | the list parses iff every entry parses |
| Schedule.ParseAllFails | utils.py:123-129 | if all entries before `i` parse and entry `i` fails, the whole parse fails with entry `i`'s error |
| Schedule.ParseEntries | utils.py:122-129 | the append loop computes `ParseAll`, stopping at the first failing entry |
| Schedule.Insert | utils.py:130 | inserting an event adds exactly that event to the multiset |
| Schedule.SortByMinute | utils.py:130 | the sort is a permutation of its input |
| Schedule.InsertSorted | utils.py:130 | inserting into a sorted list keeps it sorted by minute and grows it by one |
| Schedule.SortByMinuteSorted | utils.py:130 | the sort's output is sorted by minute and has the input's length |
| Schedule.AtMinuteSnoc | utils.py:130 | appending an event adds it to its own minute's run only |
| Schedule.AtMinuteInsert | utils.py:130 | an inserted event goes after every earlier event at its minute |
| Schedule.AtMinuteBehind | utils.py:130 | an event with a later minute does not change the run at an earlier minute |
| Schedule.SortByMinuteStable | utils.py:130 | the sort is stable: at every minute the events keep their input order |
| Schedule.Compact | utils.py:132-139 | compaction never grows the list and always ends with the input's last event |
| Schedule.CompactRuns | utils.py:132-139 | the `last_m` loop with `compact[-1] = (m, s)` computes `Compact` |
| Schedule.CompactMinutes | utils.py:132-139 | compaction keeps exactly the input's set of minutes |
| Schedule.CompactStrict | utils.py:132-139 | compacting a sorted list gives strictly increasing minutes |
| Schedule.CompactLastWins | utils.py:132-139 | compacting a sorted list keeps, at each minute, the last input event at that minute |
| Schedule.NormalizedSchedule | utils.py:130-139 | the schedule has strictly increasing minutes and the input's minute set, and each minute keeps the last input entry there |
| Schedule.MinuteSetOfPermutation | utils.py:130 | a permutation has the same minute set |
| Schedule.CompactOfAnySort | utils.py:130-139 | strictness and the minute set hold for any sorted permutation, stable or not |
| Schedule.ParseConfigOutcome | utils.py:104-140 | `parse_events` succeeds iff every entry parses; then pin, polarity and click time are the values given or the defaults 5, true and 0, and the schedule is strictly increasing and no longer than the entry list |
| Schedule.ParseConfigDefaults | utils.py:118-121 | an empty configuration gives pin 5, active high, no click and no events |
| Schedule.ParseEvents | utils.py:104-140 | `parse_events` computes `ParseConfig` and its schedule is strictly increasing |
| LocalTime.DayOfWeek | utils.py:72 | the weekday lies in 0..6, with Monday as 0 |
| LocalTime.DaysFromCivilEpoch | utils.py:72 | the day count is 0 on 1970-01-01, and that day is weekday 3, a Thursday |
| LocalTime.MarchYearLength | utils.py:72 | from the 1st of March to the next there are 366 days when the February between has a 29th, and 365 otherwise |
| LocalTime.DaysFromCivilNext | utils.py:72 | from every valid date the count goes up by one to the next calendar day, across month and year ends |
| LocalTime.DayOfWeekNext | utils.py:72 | the next calendar day is the next weekday modulo 7; with the epoch this fixes the weekday of every date |
| LocalTime.DayOfWeekBack | utils.py:70-72 | going back `k` days moves the weekday back `k` places modulo 7 |
| LocalTime.ScanDown | utils.py:70-77 | the scan answers a day in 28..31 that is a Sunday, or else 31 |
| LocalTime.LastSunday | utils.py:68-77 | the descending loop returns the first Sunday among 31, 30, 29, 28 (no day above it is a Sunday), otherwise 31 |
| LocalTime.LastSundayExists | utils.py:68-77 | every 31-day month has a last Sunday, on day 25 or later |
| LocalTime.ScanFindsLateLastSunday | utils.py:70-77 | the scan equals the real last Sunday when that is on day 28 or later, and is 31 when it falls on days 25 to 27 |
| LocalTime.October2024Scan | utils.py:70-77 | October 2024's last Sunday is the 27th, but the scan gives the 31st |
| LocalTime.SecondsWithinDay | utils.py:88-90 | a valid time of day lies within its date's 86400 seconds, so the seconds order instants by date, then by time |
| LocalTime.IsDstByCalendar | utils.py:79-91 | for every valid instant, the seconds comparison is summer time iff the month is April to September, or March from 01:00 UTC on the scanned day, or October until 01:00 UTC on the scanned day |
| LocalTime.EarlyYearIsNotDst | utils.py:86-91 | every valid instant in January and February is winter time |
| LocalTime.MarchDst | utils.py:86-91 | in March, summer time holds iff the instant is at or after 01:00 UTC on the scanned day |
| LocalTime.OctoberDst | utils.py:86-91 | in October, summer time holds iff the instant is before 01:00 UTC on the scanned day |
| LocalTime.UtcOffset | utils.py:94-95 | the offset is 2 exactly in summer time and 1 otherwise |
| LocalTime.DstBoundaries | utils.py:86-91 | one second before the March boundary is winter and the boundary is summer; one second before the October boundary is summer and the boundary is winter |
| LocalTime.SummerMonthsAreDst | utils.py:86-91 | every valid instant from April to September is summer time |
| LocalTime.LateAutumnIsNotDst | utils.py:86-91 | every valid instant in November and December is winter time |
| LocalTime.October2024LateDst | utils.py:70-91 | 2024-10-28 12:00 UTC still counts as summer time, because of the scan |
| LocalTime.LocalMinutes | utils.py:93-98 | the minute-of-day is in 0..1439 and keeps the UTC minute; the hour is the UTC hour plus the offset modulo 24; the date is the UTC date |
| LocalTime.LocalDateIsUtcDate | utils.py:96-98 | local 00:30 on 2 January 2024 is still dated 1 January |
| Relays.Level | utils.py:154-158 | one write is level 0 or 1, and it is 1 iff `energize == active_high` |
| Relays.PinWrites | utils.py:160-168 | `set_disconnect` writes one level without click and two with click; only 0s and 1s; the first energises iff disconnecting; the last is energised only when holding a disconnect |
| Relays.WritesFor | utils.py:160-168 | a sequence of calls writes one or two levels per call, depending on click mode |
| Relays.WritesForSnoc | utils.py:160-168 | one more call appends exactly its own writes |
| Relays.WritesForAppend | utils.py:160-168 | the writes of two call sequences are the concatenation of their writes |
| Relays.HoldModeEndsAtLastIntent | utils.py:160-164 | without click the pin ends energised iff the last call disconnected |
| Relays.Relay.constructor | utils.py:149-152 | a new relay keeps its pin, polarity and click time and has written nothing |
| Relays.Relay.Apply | utils.py:154-158 | `_apply` appends exactly one level to the pin log |
| Relays.Relay.SetDisconnect | utils.py:160-168 | `set_disconnect` appends exactly `PinWrites` to the pin log |
| Scheduling.AllFalse | utils.py:177-182 | `[False] * n` has length `n` and is all false |
| Scheduling.CoveredPrefix | utils.py:187-191 | the scan takes a prefix of events at or before now and stops at the first one after it |
| Scheduling.CoveredPrefixUnique | utils.py:187-191 | that prefix is the only one with these properties |
| Scheduling.StateAsOf | utils.py:184-192 | the state is set iff the schedule is non-empty and its first event is at or before now; when set, it is the value of some event at or before now |
| Scheduling.StateAsOfLatest | utils.py:184-192 | on a schedule sorted by minute (ties allowed) the state is None iff it is empty or starts after now, and otherwise it is the value of the last event at or before now |
| Scheduling.Fired | utils.py:207-210 | the firing loop only names indices it has visited |
| Scheduling.FiredMembers | utils.py:207-210 | the loop fires exactly the unflagged events at minute `now`, in ascending schedule order |
| Scheduling.FiredIntentsAreIntents | utils.py:207-209 | the values handed to the relay are the fired events' values, in firing order |
| Scheduling.TickStep | utils.py:194-210 | a tick keeps one flag per event |
| Scheduling.TickFiresExactly | utils.py:194-210 | a tick records the date and minute; it fires event `i` iff the minute is new, the event's minute equals it and its flag (cleared on a new date) is unset; the new flags are the old flags or (new minute and minute match) |
| Scheduling.TickApplies | utils.py:198-210 | on a new date a tick first applies the state as of now (False when unset), then the fired values in order |
| Scheduling.RolloverResets | utils.py:198-202 | a new date re-applies the state as of now and keeps only the flags the tick itself set |
| Scheduling.SameMinuteIsIdle | utils.py:205 | a second tick at the same minute and date changes nothing and drives nothing |
| Scheduling.OutOfDayEventNeverFires | utils.py:205-210 | an event at a minute outside 0..1439 never fires from the local clock |
| Scheduling.RunDay | utils.py:194-210 | a run of ticks keeps one flag per event |
| Scheduling.AscendingCount | utils.py:207-210 | an index occurs at most once in a fired list |
| Scheduling.AtMostOncePerDate | utils.py:198-210 | ticks on one date fire each event at most once, however they repeat or skip minutes |
| Scheduling.ExactlyOncePerDate | utils.py:198-210 | from a new date, ticks at any minutes (repeated, skipped, wrapped or revisited) whose first minute differs from the last one processed fire each event exactly once if its minute was ticked, never otherwise, and leave exactly those flags set |
| Scheduling.ExactlyOnceRun | utils.py:198-210 | the inductive step for a run: one more minute extends the induction hypothesis |
| Scheduling.ExactlyOnceStep | utils.py:198-210 | a tick at a minute other than the last processed one keeps every event fired once iff its minute was ticked that date, and the flags set exactly for those events; a revisited minute fires nothing new |
| Scheduling.RepeatedMinuteIsIdle | utils.py:205 | a tick repeating the previous tick's minute fires nothing and keeps the flags |
| Scheduling.FireWritesAreWrites | utils.py:207-209 | the pin writes of the firing loop are the writes of the fired values |
| Scheduling.Scheduler.constructor | utils.py:175-179 | a new scheduler keeps the schedule, with all flags false, no date, and `_last_min` -1 |
| Scheduling.Scheduler.ResetDay | utils.py:181-182 | `reset_day` sets all flags to false |
| Scheduling.Scheduler.InitialState | utils.py:184-192 | the loop with its break returns the state as of now, and on a schedule sorted by minute that is the value of the last event at or before now |
| Scheduling.Scheduler.FireDue | utils.py:207-210 | the loop marks the events at `now` and writes the fired values to the pin, in order |
| Scheduling.Scheduler.FireOne | utils.py:209-210 | one firing applies the event and sets its flag |
| Scheduling.Scheduler.StartDay | utils.py:198-202 | on a new date: record it, clear the flags and apply the state as of now; otherwise nothing changes |
| Scheduling.Scheduler.Tick | utils.py:194-210 | `tick` leaves the state given by `TickStep` and writes its applied values to the pin |
| MainLoop.RefetchStep | main.py:35-50 | a fetch is attempted iff the minute is 23:55 and differs from `last_min`; `last_min` becomes 23:55 on an attempt; a new plan is taken iff fetch, parse and relay all succeed; it is the parse of the fetched configuration, and its schedule is strictly increasing |
| MainLoop.RefetchRun | main.py:30-39 | over any run of minutes at most one fetch is attempted; `last_min` ends as it started when none is, and as 23:55 when one is |
| MainLoop.RefetchRunStep | main.py:38-39 | each further minute of a run is one refetch block, whatever the fetch returns: `last_min` becomes that block's and the count rises exactly when it attempts a fetch |
| MainLoop.AtMostOneRefetch | main.py:30-39 | `last_min` stays -1 or 23:55; over a whole run exactly one attempt is made if 23:55 is ever seen and `last_min` started at -1, none otherwise |
| MainLoop.FreshSchedulerRollsOver | main.py:44-47 | a fresh scheduler's first tick applies the state as of now, then fires every event at the current minute |
| MainLoop.Install | main.py:43-47 | builds a relay and a scheduler from a parsed plan and drives the relay to the state as of now, connected when it is unset |
| MainLoop.Controller.constructor | main.py:19-30 | startup: the plan's relay and scheduler, the relay driven once to the state as of now, and `last_min` -1 |
| MainLoop.Controller.RefetchBlock | main.py:35-50 | the outcome matches `RefetchStep`: on failure the old scheduler and relay are untouched; on success both are fresh with the new plan and the relay driven to its state as of now |
| MainLoop.Controller.Step | main.py:31-50 | one loop pass: the old scheduler and relay change as one `TickStep`, then the refetch outcome is `RefetchStep`; a replacement relay has the new plan's pin, polarity and click time and is driven to the new plan's state as of now |
| Scenarios.ParseEightOff | utils.py:124-129 | "08:00"/"off" is minute 480, disconnect |
| Scenarios.ParseEightOn | utils.py:124-129 | "08:00"/"on" is minute 480, connect |
| Scenarios.ParseTwentyOn | utils.py:124-129 | "20:00"/"on" is minute 1200, connect |
| Scenarios.ParseTwo | utils.py:123-129 | two parsable entries give their two events in order |
| Scenarios.SortTwo | utils.py:130 | two events already in order stay in order |
| Scenarios.CompactTwo | utils.py:132-139 | two events at one minute collapse to the later one; at different minutes both stay |
| Scenarios.TwoEventScenario | utils.py:104-140 | off at 08:00 and on at 20:00 normalise to 480 and 1200; the state is disconnect at 500 and unset at 50 |
| Scenarios.DuplicateMinuteScenario | utils.py:104-140 | off then on at 08:00 normalise to a single connect at 480 |

## Left out

- `http_get_json`, `load_config` and the cache file (utils.py:7-65) are network and file I/O. They are one input, `fetched: Option<Config>`, with `None` for any exception.
- boot.py (Wi-Fi and NTP) and the stdin abort window at main.py:4-10 are hardware and console plumbing.
- `time.sleep`, `time.sleep_ms` and the polling period are timing only. The pause between the two writes of a click is not modelled.
- The `Pin` hardware is a ghost log of written levels. The identity of the pin behind an old and a new `Relay` is not modelled.
- `Relay(...)` raising during a refetch is a boolean input. At startup, a configuration that fails to load or parse crashes the program; the startup constructor takes an already parsed plan.
- JSON typing is not modelled. The configuration's fields are typed (`Option<int>`, `Option<bool>`, strings), so `int()` and `bool()` applied to values of other JSON types, and a `t` or `state` that is not a string, are outside the model.
- Schedule.ParseInt: accepts only ASCII digits with an optional sign and surrounding ASCII white space. Python's underscores between digits and non-ASCII digits are not modelled.
- Schedule.SortByMinute: `list.sort` is modelled as a stable sort. That is an assumption, since MicroPython does not promise stability. `Schedule.CompactOfAnySort` shows which results hold for any sort; the last-wins result depends on stability.
- Scheduling.Scheduler.Tick: one clock instant serves the whole tick. The source reads the clock again inside `initial_state` (utils.py:185) and again in the main loop (main.py:37), and those reads can differ across a minute boundary.
- Exceptions escaping `tick` out of the main loop are not modelled.
- LocalTime.DaysFromCivil: stands in for `time.mktime`. The model uses unbounded proleptic Gregorian arithmetic, with none of the port's epoch or range limits. The `try/except` in `_last_sunday` never triggers for days 28 to 31 of March and October, so it has no counterpart.
- LocalTime.LastSundayExists: stated for 31-day months only. In a 30-day month the scan's day 31 counts as the 1st of the next month, and the program scans only March and October.
- The unbounded `while True` loop is modelled as one step (`MainLoop.Controller.Step`). Properties of whole runs are stated over sequences of minutes (`RunDay`, `RefetchRun`).
