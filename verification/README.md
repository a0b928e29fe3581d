# Time conversion and daylight saving time of the CircuitPython NTP template

This project models the timekeeping core of the CircuitPython program
template `Async-WiFi-NTP-DST-Template/code.py` and proves properties of it.
The core has four parts:

- converting a UTC `struct_time` to local time by adding an offset in hours
  and normalising through `time.mktime` / `time.localtime`
  (`adjust_utc_time`);
- the day of the week (`weekday`) and the n-th occurrence of a weekday in
  a month (`nth_weekday`);
- the US daylight saving rule (`get_dynamic_dst_bounds`), fixed "MM-DD
  HH:MM" bounds read from the settings (`parse_static_dst_time`), and the
  decision whether an instant is in DST (`is_dst`, with DST enabled or
  disabled);
- one pass of the periodic NTP sync task. The pass validates the sample,
  chooses the effective offset, converts and formats the time, and sets
  the global `time_synced` flag.

Modules:

- `Calendar` replaces the device's `mktime` / `localtime` pair with
  proleptic Gregorian day counts. The device has no time zone, so
  `localtime(mktime(t))` only normalises `t`. `Mktime` is a linear seconds
  count that accepts out-of-range fields. `Localtime` is the unique
  normalised tuple with a given count.
- `Weekdays` holds `nth_weekday`: the scanning loop as a method, and the
  closed form it is proved against.
- `Text` holds the string functions the code uses: `str`, `"{:02d}"`,
  `int`, `str.split` and `str.lower`.
- `Dst` holds the DST bounds and `is_dst`.
- `NtpSync` holds the sync pass and a class `NtpTimeSync` whose field
  `timeSynced` is the global flag.

The settings that `code.py` reads from `settings.toml` are a `Config`
value passed as a parameter. `DefaultConfig` holds the source's defaults.

## Model

| member | source | states |
|---|---|---|
| Calendar.DaysInMonth | Async-WiFi-NTP-DST-Template/code.py:173 | a month of the calendar `mktime` counts in has 28 to 31 days |
| Calendar.CivilFromDays | Async-WiFi-NTP-DST-Template/code.py:173 | every day count since 1970-01-01 is a valid date, whose day count is that number |
| Calendar.MktimeInjective | Async-WiFi-NTP-DST-Template/code.py:173 | two normalised tuples with the same `mktime` are equal |
| Calendar.Localtime | Async-WiFi-NTP-DST-Template/code.py:173 | `localtime` yields a normalised tuple whose `mktime` is the given seconds count |
| Calendar.LocaltimeOfMktime | Async-WiFi-NTP-DST-Template/code.py:173 | `localtime(mktime(t))` gives back any normalised `t` unchanged |
| Calendar.MktimeHourShift | Async-WiFi-NTP-DST-Template/code.py:165 | `mktime` counts an out-of-range hour field linearly: adding k hours adds k*3600 seconds |
| Calendar.MktimeSplit | Async-WiFi-NTP-DST-Template/code.py:173 | the `mktime` of a normalised tuple splits into its day count and its time of day |
| Calendar.BeforeIsEarlier | Async-WiFi-NTP-DST-Template/code.py:246 | on normalised tuples, Python's tuple `<` holds exactly when the first instant is earlier, and `==` exactly when they are the same instant |
| Calendar.AtOrBeforeIsNoLater | Async-WiFi-NTP-DST-Template/code.py:246 | on normalised tuples, Python's tuple `<=` holds exactly when the first instant is no later than the second |
| Calendar.AdjustUtcTime | Async-WiFi-NTP-DST-Template/code.py:155-173 | the result is normalised and lies exactly `offset` hours after the input |
| Calendar.AdjustRoundTrip | Async-WiFi-NTP-DST-Template/code.py:155-173 | shifting by `offset` and then by `-offset` gives the normalised original; a normalised input comes back unchanged |
| Calendar.AdjustAcrossNewYear | Async-WiFi-NTP-DST-Template/code.py:155-173 | the normalisation carries across a year end: 2025-01-01 00:00 at -8 hours is 2024-12-31 16:00 |
| Calendar.Weekday | Async-WiFi-NTP-DST-Template/code.py:175-180 | the weekday is between 0 (Monday) and 6 (Sunday) |
| Calendar.WeekdayIsLocaltime | Async-WiFi-NTP-DST-Template/code.py:175-180 | the weekday is the `tm_wday` of the normalised midnight of the date, as the source computes it |
| Calendar.WeekdayShift | Async-WiFi-NTP-DST-Template/code.py:175-180 | days `j` apart are `j` weekdays apart modulo 7, for any day number, including days past the end of the month |
| Calendar.DayAfterMonthEnd | Async-WiFi-NTP-DST-Template/code.py:175-180 | the day after the last of a month normalises to the first of the next month or year, one weekday later |
| Calendar.SecondSundayOfMarch2025 | Async-WiFi-NTP-DST-Template/code.py:175-180 | 9 March 2025 was a Sunday |
| Weekdays.FirstOccurrence | Async-WiFi-NTP-DST-Template/code.py:182-196 | the first day on a given weekday lies in 1..7 and falls on that weekday |
| Weekdays.MatchesFirstOccurrence | Async-WiFi-NTP-DST-Template/code.py:190 | a day falls on the weekday exactly when it is a whole number of weeks after the first occurrence |
| Weekdays.CountClosedForm | Async-WiFi-NTP-DST-Template/code.py:187-191 | the count of matching days among 1..k is 0 before the first occurrence and then rises by one every seven days |
| Weekdays.NthWeekdayUpTo | Async-WiFi-NTP-DST-Template/code.py:182-196 | a found day is in week n, is no later than the last day scanned, and falls on the weekday; one is always found when week n lies within the scan |
| Weekdays.NthWeekdayIsNth | Async-WiFi-NTP-DST-Template/code.py:187-196 | the found day is preceded by exactly n-1 matches and brings the count to n; None is returned exactly when fewer than n days match up to the last day scanned |
| Weekdays.NthWeekdayUnique | Async-WiFi-NTP-DST-Template/code.py:187-193 | a day on the weekday that brings the count to n is the answer |
| Weekdays.NthWeekday | Async-WiFi-NTP-DST-Template/code.py:182-196 | the scan over days 1..31 returns the n-th occurrence as the closed form defines it, or None |
| Weekdays.NthWeekdayInMonth | Async-WiFi-NTP-DST-Template/code.py:182-196 | the intended answer is a valid date of the month on the weekday; it is None for a month outside 1..12 |
| Weekdays.ScanAgreesUpToFourth | Async-WiFi-NTP-DST-Template/code.py:205-206 | for the first to fourth occurrence, the scan and the intended answer agree, the answer exists and it is at most 28 |
| Weekdays.FifthThursdayOfApril2025 | Async-WiFi-NTP-DST-Template/code.py:188-195 | the scan answers 31 for the fifth Thursday of April 2025, a day that does not exist and that normalises to 1 May; the intended answer is None |
| Dst.DynamicDstBounds | Async-WiFi-NTP-DST-Template/code.py:198-214 | the start is 02:00:00 on a Sunday between 8 and 14 March, the end is 02:00:00 on a Sunday between 1 and 7 November, both normalised, and the start comes before the end |
| Dst.DynamicDstBounds2025 | Async-WiFi-NTP-DST-Template/code.py:198-214 | in 2025 the period runs from 9 March 02:00 to 2 November 02:00 |
| Dst.ParseStaticDstTime | Async-WiFi-NTP-DST-Template/code.py:216-225 | a parsed bound carries the given year and zero seconds; every failure is a `ValueError` |
| Dst.ParseStaticDstTimeRoundTrip | Async-WiFi-NTP-DST-Template/code.py:216-225 | a bound written as "MM-DD HH:MM" reads back as the same month, day, hour and minute |
| Dst.StaticDstTimeNeedsOneSpace | Async-WiFi-NTP-DST-Template/code.py:222 | a bound without exactly one space raises `ValueError` |
| Dst.DateNeedsOneDash | Async-WiFi-NTP-DST-Template/code.py:223 | a date half without exactly one '-' raises `ValueError` |
| Dst.ClockNeedsOneColon | Async-WiFi-NTP-DST-Template/code.py:224 | a clock half without exactly one ':' raises `ValueError` |
| Dst.ParseStaticDstTimeAccepted | Async-WiFi-NTP-DST-Template/code.py:216-225 | a bound is accepted exactly when it has the "M-D H:M" shape and `int` reads all four pieces; the fields are then the values `int` gives, padded or not |
| Dst.DefaultStaticBounds | Async-WiFi-NTP-DST-Template/code.py:54-55 | the default static bounds read as 14 March and 7 November at 02:00 |
| Dst.DefaultModeIsDynamic | Async-WiFi-NTP-DST-Template/code.py:239 | the default mode "dynamic" selects the US rule |
| Dst.CapitalisedModeIsDynamic | Async-WiFi-NTP-DST-Template/code.py:239 | the mode is compared after lower-casing, so "Dynamic" selects the US rule too |
| Dst.StaticModeIsNotDynamic | Async-WiFi-NTP-DST-Template/code.py:239-244 | the word "static" selects the static bounds |
| Dst.ModeIgnoresCase | Async-WiFi-NTP-DST-Template/code.py:239 | lower-casing the mode first never changes which rule is chosen |
| Dst.DstBounds | Async-WiFi-NTP-DST-Template/code.py:239-244 | in dynamic mode the bounds are the US ones. Otherwise they fail exactly when either static string fails to parse, and when they succeed they are the same instants as the parsed `DST_START` and `DST_END` of that year. Bounds that exist are normalised |
| Dst.IsDst | Async-WiFi-NTP-DST-Template/code.py:248-250 | with DST disabled the answer is always False |
| Dst.IsDstWindow | Async-WiFi-NTP-DST-Template/code.py:227-246 | with DST enabled, the call fails exactly when the bounds fail; otherwise it answers whether local standard time lies in the half-open period from start (included) to end (excluded) of its own local year |
| Dst.DynamicStartIncluded | Async-WiFi-NTP-DST-Template/code.py:246 | the exact start instant of the US period is in DST |
| Dst.DynamicStartPrecededByStandardTime | Async-WiFi-NTP-DST-Template/code.py:246 | the second before the start is not in DST |
| Dst.DynamicEndExcluded | Async-WiFi-NTP-DST-Template/code.py:246 | the exact end instant is not in DST |
| Dst.DynamicEndPrecededByDst | Async-WiFi-NTP-DST-Template/code.py:246 | the second before the end is still in DST |
| Dst.DefaultDstBounds2025 | Async-WiFi-NTP-DST-Template/code.py:235-240 | with the default settings and DST enabled, the 2025 period is the US one |
| Dst.SummerNoonIsDst | Async-WiFi-NTP-DST-Template/code.py:227-246 | with the default offset of -8 hours, noon UTC on 1 July 2025 is in DST |
| Dst.WinterNoonIsNotDst | Async-WiFi-NTP-DST-Template/code.py:227-246 | noon UTC on 1 January 2025 is not in DST |
| Dst.StaticDefaultWindow2025 | Async-WiFi-NTP-DST-Template/code.py:243-244 | in static mode the default bounds of 2025 are the instants 14 March 02:00 and 7 November 02:00 |
| Dst.StaticSummerNoonIsDst | Async-WiFi-NTP-DST-Template/code.py:227-246 | in static mode with the default bounds, local standard noon on 1 June 2025 is in DST |
| Dst.StaticWinterNoonIsNotDst | Async-WiFi-NTP-DST-Template/code.py:227-246 | local standard noon on 1 December 2025 is not in DST |
| Dst.CrossYearStaticWindowNeverApplies | Async-WiFi-NTP-DST-Template/code.py:243-246 | static bounds whose start falls later in the year than their end never give DST, for any instant |
| Dst.SouthernWindowNeverApplies | Async-WiFi-NTP-DST-Template/code.py:243-246 | with DST from "10-05 02:00" to "04-06 03:00", no instant is ever in DST |
| NtpSync.CompleteTime | Async-WiFi-NTP-DST-Template/code.py:286-287 | a sample is usable exactly when the client answered and none of the six fields is missing; the time is then built from those fields |
| NtpSync.FormatTimeRoundTrip | Async-WiFi-NTP-DST-Template/code.py:300-307 | the logged "YYYY-MM-DD HH:MM:SS" line reads back as the local time, for every normalised time from year 0 on |
| NtpSync.FormattedTimePieces | Async-WiFi-NTP-DST-Template/code.py:300-307 | the formatted line is the date and the clock separated by one space; the date is `str` of the year and `{:02d}` of month and day joined by '-', the clock the three `{:02d}` fields joined by ':' |
| NtpSync.FormatTimeLength | Async-WiFi-NTP-DST-Template/code.py:300-307 | every field after the year takes exactly two characters |
| NtpSync.SyncAttempt | Async-WiFi-NTP-DST-Template/code.py:280-315 | a pass reports an invalid response exactly when the sample is incomplete |
| NtpSync.SyncOutcomeMeaning | Async-WiFi-NTP-DST-Template/code.py:290-311 | a pass fails exactly when `is_dst` raises, with that error. On success: the offset is the base offset plus the DST offset exactly when DST is in effect (the base offset alone with DST disabled); the local time is normalised and exactly that many hours after the sample; the logged line is its formatting |
| NtpSync.SyncedLocalRoundTrip | Async-WiFi-NTP-DST-Template/code.py:291-297 | a synced local time converts back to the normalised UTC sample by the negated offset |
| NtpSync.DynamicModeAlwaysSyncs | Async-WiFi-NTP-DST-Template/code.py:286-311 | with DST enabled in dynamic mode, every complete sample syncs |
| NtpSync.SyncAttemptAsWritten | Async-WiFi-NTP-DST-Template/code.py:152-153 | as written, the pass equals the intended one with DST enabled; with DST disabled, every complete sample fails with `NameError` |
| NtpSync.DefaultSettingsNeverSync | Async-WiFi-NTP-DST-Template/code.py:297 | with DST disabled (its default) and NTP enabled, the pass as written never syncs, while the intended pass syncs every complete sample at the base offset |
| NtpSync.SyncAll | Async-WiFi-NTP-DST-Template/code.py:279-320 | the loop makes one pass per sample |
| NtpSync.SyncAllPointwise | Async-WiFi-NTP-DST-Template/code.py:279-320 | pass i is the pass on sample i; no pass depends on an earlier one |
| NtpSync.AnySyncedAppend | Async-WiFi-NTP-DST-Template/code.py:311 | one more pass leaves the flag set, or sets it when that pass syncs |
| NtpSync.NtpTimeSync.constructor | Async-WiFi-NTP-DST-Template/code.py:149 | the task starts with its settings and the flag clear |
| NtpSync.NtpTimeSync.SyncStep | Async-WiFi-NTP-DST-Template/code.py:280-315 | the pass returns the intended outcome; the flag becomes true when the pass syncs and is otherwise unchanged |
| NtpSync.NtpTimeSync.Run | Async-WiFi-NTP-DST-Template/code.py:279-320 | successive passes return the outcome of every sample in order; the flag ends true exactly when it started true or some pass synced, and it is never reset |
| Text.NatToStringValue | Async-WiFi-NTP-DST-Template/code.py:300 | the decimal digits `str` writes have the number's value |
| Text.NatToString | Async-WiFi-NTP-DST-Template/code.py:300 | `str` of a natural number is a non-empty digit string without a leading zero |
| Text.IntToString | Async-WiFi-NTP-DST-Template/code.py:300 | `str` of an integer starts with '-' exactly when the integer is negative |
| Text.Pad2 | Async-WiFi-NTP-DST-Template/code.py:300 | `{:02d}` writes at least two characters, only digits for a non-negative number, and exactly two digits of that value below 100 |
| Text.ParseIntToString | Async-WiFi-NTP-DST-Template/code.py:300-301 | `int` reads back what `str` writes, for every integer |
| Text.ParseIntPad2 | Async-WiFi-NTP-DST-Template/code.py:223-224 | `int` reads back what `{:02d}` writes, for every integer |
| Text.ParseDigits | Async-WiFi-NTP-DST-Template/code.py:223-224 | `int` of a plain digit string is its decimal value |
| Text.ParseNegatedDigits | Async-WiFi-NTP-DST-Template/code.py:223-224 | `int` of '-' and a digit string is the negated value |
| Text.ParseIntNeedsDigit | Async-WiFi-NTP-DST-Template/code.py:223-224 | `int` refuses any string without a decimal digit |
| Text.Split | Async-WiFi-NTP-DST-Template/code.py:222-224 | `split` yields one piece more than there are separators, no piece holds the separator, and joining the pieces with it gives the string back |
| Text.SplitJoin | Async-WiFi-NTP-DST-Template/code.py:222-224 | `split` undoes a join of pieces that hold no separator |
| Text.ToLower | Async-WiFi-NTP-DST-Template/code.py:239 | `lower` keeps the length and folds each character on its own |
| Text.ToLowerIdempotent | Async-WiFi-NTP-DST-Template/code.py:239 | lowering twice is lowering once |

## Left out

- Reading `settings.toml` through `os.getenv` (lines 22-55): the settings are a `Config` parameter, and `DefaultConfig` holds the defaults.
- Logging to the console and to syslog, memory monitoring, Wi-Fi, building the NTP client and `asyncio` scheduling: these are I/O. The sample the client returns on each pass is a parameter, and the log lines are not modelled beyond the formatted time.
- The `await asyncio.sleep(Config.NTP_SYNC_INTERVAL)` between passes (line 320): `NtpTimeSync.Run` takes the samples of successive passes as a sequence.
- Client construction failing and ending the task (lines 265-276): an I/O failure outside the pass.
- `tm_wday`, `tm_yday` and `tm_isdst` as stored fields: `mktime` ignores them on input. `tm_wday` of a normalised tuple is available as `TimeTuple.Wday`. Two normalised tuples that agree on the first six fields agree on the rest, so leaving them out does not change any tuple comparison.
- The device's limits on `mktime`: CircuitPython's `OverflowError` for years before 2000 and its 32-bit seconds range. The model counts on unbounded integers over the whole proleptic Gregorian calendar.
- A `struct_time` field that is not an integer, and any error it raises: the client fields are integers or missing.
- `int` accepting underscores between digits: `Text.ParseInt` reads plain ASCII digits only. The space characters it skips are space and tab to carriage return.
- `Text.ToLower`: folds ASCII letters only; the non-ASCII case mappings of `str.lower` are not modelled.
- Dst.DynamicDstBounds: uses the intended `NthWeekdayInMonth` rather than the scan. `Weekdays.ScanAgreesUpToFourth` proves the two agree for the second and first occurrences it asks for, so nothing is lost.
- Exceptions other than `ValueError` from the static bounds and `NameError` from the missing `adjust_utc_time`: no other exception can arise in the modelled pass.

## Findings

| source | as written | input that shows it | evidently intended | confidence | as-written member | corrected member |
|---|---|---|---|---|---|---|
| Async-WiFi-NTP-DST-Template/code.py:188-195 | `nth_weekday` scans days 1 to 31 and relies on an exception to stop at the end of the month, but `mktime` normalises an out-of-range day instead of raising, so day 31 of a 30-day month counts as the first of the next month | `nth_weekday(2025, 4, 3, 5)` returns 31, because 1 May 2025 is a Thursday | the n-th occurrence within the month itself, or None (here None) | medium, not executed; depends on the device's `mktime` normalising, as CPython's does | Weekdays.FifthThursdayOfApril2025 | Weekdays.NthWeekdayInMonth |
| Async-WiFi-NTP-DST-Template/code.py:152-155, 297 | `adjust_utc_time` is defined only inside `if Config.DST_ENABLED:`, yet the sync pass always calls it | DST disabled (its default) and NTP enabled, with any complete NTP sample: the call raises `NameError`, which line 313 catches, so `time_synced` is never set | with DST disabled, convert by the base offset and sync | high, not executed | NtpSync.DefaultSettingsNeverSync | NtpSync.SyncAttempt |
