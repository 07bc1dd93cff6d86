# Verified models of the date, module-loading and byte-stream code

A Dafny model of the parts of this repository whose correctness is hardest to see from the code, with
proofs of what they promise. `dafny verify dfyconfig.toml` checks all of it.

| file | models | main results |
|---|---|---|
| `Gregorian.dfy` | `date/date.h` civil dates | `to_days`/`from_days` count single days from the epoch for every integer; they are inverse; order agrees |
| `Julian.dfy`, `Islamic.dfy` | `date/julian.h`, `date/islamic.h` | the same against each calendar's own day-by-day walk; the Julian/Gregorian gap |
| `Weekdays.dfy` | weekday arithmetic, nth and last weekday of a month | inverse conversions; `ok()` exactly when the day exists |
| `IsoWeek.dfy` | `date/iso_week.h` | the code computes the week date of ISO 8601 (the Thursday rule); bijection; 53-week years |
| `WeekFields.dfy` | %G %V %U %W in the formatter and the parser | exactly which dates the parser returns from their fields; exactly when an accepted date has every given field; 16- and 8-bit narrowing included |
| `PosixZone.dfy` | `date/ptz.h` | local times are classified by the number of instants that show them; the conversions; the partition of the time line; when the clocks change |
| `LeapSeconds.dfy` | `utc_clock` and UTC text in `date/tz.h` | exactly which tables make `from_sys`/`to_sys` a Galois connection or inverse, and the search with its correction right |
| `TimeOfDay.dfy` | `width`, `decimal_format_seconds`, `time_of_day` | least number of digits; lossless splitting; the 12-hour clock |
| `ScanKeyword.dfy` | `scan_keyword` | longest prefix, first equal keyword, exact counters |
| `ModuleId.dfy` | `duk__resolve_module_id` | the in-place two-cursor loop equals a stack of terms; what an id resolves to, said of its parts; requests as modules write them |
| `ModuleRegistry.dfy` | `duk__require` | registration over every nesting of requires, cyclic and failing ones included; exactly which loads succeed |
| `ByteStreams.dfy` | `io/ByteArray`, `ByteStreamWriter`, `ByteStreamReader` | writing and reading any list of values at any position; the wire format |
| `CppInt.dfy`, `Options.dfy`, `FiniteSets.dfy` | C++ division and narrowing; a missing value; set sizes | the floor-division idiom |

Conventions. Code made of expressions is a function; code that loops or updates variables is a method
proved against a function. Years are unbounded integers except in `WeekFields.dfy`, which narrows years,
months, days and weekdays as the source stores them (modulo 2^16 and 2^8); `Gregorian.RoundTrip16` says
what storing years in a `short` changes elsewhere, `Gregorian.ToDaysRanges` and `Gregorian.FromDaysRanges` that nothing
overflows 32 bits. `Valid` of a date is the source's `ok()` without the bound on the year. Zone times
are `real` seconds and the UTC clock counts ticks of any size, so the results hold for every duration
type. A proof that does not need a definition hides it (`hide`), which only removes facts.

Where a property fails, the model keeps the code's behaviour and the exact condition is proved:

- `get_info(sys)` partitions the time line exactly when daylight saving never ends before it starts
  within a UTC year (`PosixZone.PartitionsIffOrdered`). A zone with the opposite order is never put on
  daylight saving at all (`PosixZone.ReversedNeverDst`), and although each of its local times is shown
  exactly once, the answer is `unique` only away from its transitions; the hour after each start, if the
  saving is one, is called nonexistent (`PosixZone.ReversedLocalTimes`, `PosixZone.ReversedFalseGap`).
  Month rules that end daylight saving in February or later and start it again two or more months after
  that, by November, are of this kind (`PosixZone.MonthlyRulesReversed`), Sydney's for instance
  (`PosixZone.SydneyHasNoSummer`).
- `is_leap_second` is right for every instant exactly when the kth gap of the table is at least k
  seconds (`LeapSeconds.ExactIffSpaced`). Then `to_sys` is the upper adjoint of `from_sys`, and for ticks
  below a second only then (`LeapSeconds.GaloisIff`); that system times survive the trip through UTC
  takes one second less per gap, exactly (`LeapSeconds.RoundTripsIff`).
- On such tables UTC times are read back as printed exactly when insertions come at whole minutes
  (`LeapSeconds.TextRoundTripsIff`).
- %V is the ISO week of every valid date except 1 and 2 January -32767, whose ISO year has no predecessor
  in a `short` (`WeekFields.FormatV`). The parser returns every valid date from sufficient fields of it,
  except those two beside a %V it looks at (`WeekFields.ParseComplete`).
- A date the parser accepts has every given field exactly when the year given is in range, month and day
  fit 8 bits, week numbers are at most 53, a full week date names a year in range and a week that year has,
  and a lone %G or %V beside a %U or %W date is the right one (`WeekFields.ParseHonoursIff`). Otherwise: a
  year out of range is dropped and read as 0 (`WeekFields.YearOutOfRangeDropped`,
  `WeekFields.YearOutOfRangeIsZero`); an ISO year out of range wraps (`WeekFields.IsoYearWraps`,
  `WeekFields.Week40000Wraps`), and so do months, days (`WeekFields.MonthAndDayWrap`) and the year a week
  number leads to (`WeekFields.Week10258514Wraps`); a week the year does not have is accepted for a day of
  the next or the previous year (`WeekFields.AnyWeekDateAccepted`); the lone %G or %V is ignored
  (`WeekFields.UncheckedIgnored`, `WeekFields.AnyWeekAccepted`).
- A relative module id depends on the requiring module's parent alone except for the length of the
  composed input, which counts that module's own id (`ModuleId.RelativeIdAgainstParent`).
- `make12` then `make24` keeps every hour except 24 (`TimeOfDay.ThereAndBack`).
- `from_days` then `to_days` is the identity exactly on the days of 16-bit years
  (`Gregorian.RoundTrip16`).
- Reading a string appends to the variable it is read into (`ByteStreams.Reader.ReadString`).

## Model

| member | source | states |
|---|---|---|
| CppInt.FloorIdiom | date/date.h:2725 | `(x >= 0 ? x : x-(n-1)) / n` with C++ truncation is floor division, for every sign and divisor |
| Gregorian.WalkIsFromDays | date/date.h:2826-2845 | for every integer n, `from_days(n)` is the date n single-day steps from 1970-01-01 with the month lengths and the leap rule, and `to_days` of it is n |
| Gregorian.WalkReachesEveryDate | date/date.h:2714-2731 | every calendar date is reached by the day-by-day walk, exactly at step `to_days` |
| Gregorian.RoundTrip | date/date.h:2714-2845 | `from_days` always yields a valid date and the two conversions are mutual inverses, for all positive and negative years |
| Gregorian.OrderAgrees | date/date.h:2773-2783 | `<` and `==` on valid dates agree with `<` and `==` on day numbers |
| Gregorian.YearOfEraBrackets | date/date.h:2838 | the year-of-era formula finds the year whose days surround the day of the era, leap days included |
| Gregorian.YearOfDay | date/date.h:2826-2845 | the year of a day number is the one whose first days surround it |
| Gregorian.LeapIsDivisibility | date/date.h:1583-1589 | with C++ remainders, `is_leap` is the divisibility rule for negative years too |
| Gregorian.ToDaysRanges | date/date.h:2722-2730 | for 16-bit years the intermediates of `to_days` lie in the commented ranges and fit 32 bits |
| Gregorian.FromDaysRanges | date/date.h:2835-2844 | the same for `from_days` |
| Gregorian.RoundTrip16 | date/date.h:2844 | with the year narrowed to a `short`, the round trip holds exactly on the day numbers of 16-bit years |
| Julian.WalkIsFromDays | date/julian.h:2263-2282 | `from_days` and `to_days` count single days of the calendar with a leap day every fourth year |
| Julian.RoundTrip | date/julian.h:2153-2170 | the conversions are mutual inverses between Julian dates and all integers |
| Julian.CalendarGap | date/julian.h:2153-2170 | the same fields in the two calendars are floor(y/100) - floor(y/400) - 2 days apart, y the March-based year |
| Julian.ConversionRoundTrip | date/julian.h:2263-2282 | converting a date to the other calendar through day numbers and back returns it, either way |
| Islamic.LinearCountsLeaps | date/islamic.h:1049-1074 | `(11*(yoe+1)+3)/30` counts exactly the leap years of the 11-case table |
| Islamic.WalkIsFromDays | date/islamic.h:2249-2267 | `from_days` and `to_days` count single days of the calendar with the table's leap years |
| Islamic.RoundTrip | date/islamic.h:2139-2156 | the conversions are mutual inverses between Islamic dates and all integers |
| Weekdays.WeekdayIsModulo | date/date.h:1714-1721 | the weekday of every day number, before the epoch too, is its distance from a Sunday modulo 7 |
| Weekdays.DiffIsModulo | date/date.h:1782-1790 | subtracting weekdays gives the days forward from one to the other, 0 to 6 |
| Weekdays.NthRoundTrip | date/date.h:3015-3034 | `year_month_weekday` and day numbers convert into each other without loss, and the result is `ok()` |
| Weekdays.ExistsIffInMonth | date/date.h:3001-3013 | `ok()` holds exactly when the nth weekday lies in its month |
| Weekdays.LastIsLast | date/date.h:3204-3211 | `weekday[last]` is that weekday, is in the month, and a week later the month is over |
| Weekdays.LastIsGreatestIndex | date/date.h:3204-3211 | it is the fourth or fifth, whichever is the greatest index that exists |
| IsoWeek.FromDaysIso | date/iso_week.h:1494-1511 | the code with its year correction computes the week date defined by the week's Thursday |
| IsoWeek.RoundTripIso | date/iso_week.h:1470-1492 | the result is always `ok()` and `from_days` and `operator sys_days` are mutual inverses |
| IsoWeek.LongYears | date/iso_week.h:1012-1021 | a year has 52 or 53 weeks, 53 exactly when 1 January is a Thursday, or a Wednesday in a leap year |
| IsoWeek.LastWeekAgrees | date/iso_week.h:1312-1318 | the last-week conversion equals spelling out the last week's number |
| WeekFields.FormatG | date/date.h:4956-4980 | %G is the ISO year of every valid date, although the year three days on may wrap; other dates fail the stream |
| WeekFields.FormatV | date/date.h:5392-5419 | %V is the ISO week of a valid date exactly when that is not 1 or 2 January -32767, for which it is -3419451 |
| WeekFields.FormatWeek | date/date.h:5347-5372 | %U and %W (5472-5497) of a valid date are the number of Sundays or Mondays its year has had, that day included |
| WeekFields.IsoYearRange | date/date.h:5406-5416 | the ISO year of a valid date fits a `short`, and is -32768 exactly for those two dates |
| WeekFields.RecomposeG | date/date.h:7276-7280 | the parser's week-date formula inverts %G, %V and the weekday, over unbounded years |
| WeekFields.RecomposeG16 | date/date.h:7278 | with `year{G-1}` narrowed it does so exactly for ISO years -32767 to 32768 |
| WeekFields.RecomposeWeek | date/date.h:7295-7330 | its %U and %W formulas invert the formatter's, week 0 included |
| WeekFields.ParseDate | date/date.h:7273-7392 | the step-by-step parser, narrowing as it goes, computes the merge-and-check specification `Parse` |
| WeekFields.CheckWeeks | date/date.h:7353-7391 | the comparisons made when no week date fixed the day are against the formatter's four numbers |
| WeekFields.ParseComplete | date/date.h:7273-7392 | any sufficient choice of the fields of a date parses to that date, if and only if it is not 1 or 2 January -32767 with a %V that is looked at |
| WeekFields.ParseSound | date/date.h:7273-7392 | what an accepted valid date keeps: a year in range, month and day modulo 256, the weekday, %U and %W up to 53; the day a full week date leads to; every week field when no week date fixed the day |
| WeekFields.ParseHonoursIff | date/date.h:7273-7392 | an accepted valid date has every given field if and only if the fields are trustworthy: year and ISO year in range, month and day in 8 bits, weeks that exist, uncompared %G or %V right |
| WeekFields.ParseExactly | date/date.h:7273-7393 | the parser stores a date, valid or not, if and only if all sources agree on it: year (0 without one), month and day modulo 256, the day of each week date; only a valid date is held against its weekday and uncomputed week fields |
| WeekFields.NoDayNamed | date/date.h:7346-7393 | fields that name no valid day are stored as they are, without a check |
| WeekFields.YearAndMonth | date/date.h:7346-7393 | a year and a month alone are stored with day 0 |
| WeekFields.PlainDate | date/date.h:6157-6168 | a valid date alone is stored, the other fields holding the values that mark them as missing |
| WeekFields.YearOutOfRangeDropped | date/date.h:7273-7274 | a year out of range has no influence on the result |
| WeekFields.YearOutOfRangeIsZero | date/date.h:7346 | a month and day with a year out of range are accepted as a date of year 0 |
| WeekFields.Year40000IsZero | date/date.h:7273-7346 | 40000-01-01 is accepted as 1 January of year 0 |
| WeekFields.IsoYearWraps | date/date.h:7276-7280 | of the ISO year of a full week date only the low 16 bits count |
| WeekFields.Week40000Wraps | date/date.h:7276-7280 | 40000-W01-2 is accepted as a day of ISO year -25536 |
| WeekFields.MonthAndDayWrap | date/date.h:7285-7292 | of a given month and day only the low 8 bits count |
| WeekFields.Month257IsJanuary | date/date.h:7346 | month 257 is accepted as January |
| WeekFields.Week10258514Wraps | date/date.h:7295-7311 | the Monday of week 10258514 of 1990 is accepted as 1 January 1990 |
| WeekFields.WrappedWeekAccepted | date/date.h:7357-7375 | beside 1 or 2 January -32767 the wrapped week number is accepted for %V |
| WeekFields.UncheckedIgnored | date/date.h:7353-7356 | beside a %U or %W date neither a lone %V nor a lone %G has an influence on the result |
| WeekFields.AnyWeekAccepted | date/date.h:7353-7356 | every valid date given by %Y, a weekday and %U or %W is accepted with any %V, and with any %G |
| WeekFields.WeekDateExists | date/date.h:7276-7280 | a parsed week date is the date's own exactly when the year has that week |
| WeekFields.WeekCarries | date/date.h:7276-7280 | a week past the last, or before the first, is the corresponding week of the next or the previous year |
| WeekFields.AnyWeekDateAccepted | date/date.h:7276-7294 | %G, %V and a weekday are accepted whether or not the (narrowed) year has the week; two-digit weeks past the last land in the next ISO year, week 0 in the one before |
| PosixZone.CeilMinutes | date/ptz.h:229 | the recorded saving is the least number of minutes not below it, for negative savings too |
| PosixZone.GetSysInfo | date/ptz.h:211-253 | filling the record branch by branch gives the specified record |
| PosixZone.GetLocalInfo | date/ptz.h:255-332 | the same for local times |
| PosixZone.PartitionsIffOrdered | date/ptz.h:211-253 | with transitions in their own UTC years: records cover their instants, are constant on what they cover and abut, exactly when start <= end in every year |
| PosixZone.ReversedNeverDst | date/ptz.h:221-244 | if daylight saving ends no later than it starts within each year, it is never reported |
| PosixZone.MonthlyRulesReversed | date/ptz.h:95-117 | month-based rules from a later month to an earlier one are reversed in every year, and the records do not partition the time line |
| PosixZone.ReversedLocalTimes | date/ptz.h:255-332 | in a reversed zone each local time is shown exactly once, yet the answer is unique exactly when no transition of the local year falls between the two candidates |
| PosixZone.ReversedFalseGap | date/ptz.h:267-283 | with positive saving that much time after each start is called nonexistent although it is shown, and `to_sys` throws |
| PosixZone.SydneyHasNoSummer | date/ptz.h:211-332 | the zone AEST-10AEDT,M10.1.0,M4.1.0/3 is such a zone |
| PosixZone.LocalInfoClassifies | date/ptz.h:255-332 | nonexistent, unique and ambiguous mean zero, one and two instants with that local time; the records are those of the instants, or of both sides of the gap; any sign of saving |
| PosixZone.InstantRoundTrip | date/ptz.h:334-374 | every instant is the earliest or latest choice for its local time; the throwing `to_sys` returns it or reports an ambiguity |
| PosixZone.LocalRoundTrip | date/ptz.h:334-346 | a converted local time is shown at the instant returned and only there; the exceptions mean none, or two |
| PosixZone.ChoicesAreBounds | date/ptz.h:347-363 | earliest is the first instant showing a time not before tp, latest the least bound after which only later times show; earliest <= latest |
| PosixZone.ChoicesMonotone | date/ptz.h:347-363 | both choices are non-decreasing in the local time |
| PosixZone.MonthlyRulesAdmissible | date/ptz.h:95-117 | month-based rules from February to November meet the hypothesis of the above, for any weekday, week, time, offset and saving |
| PosixZone.MonthRule | date/ptz.h:107-109 | an M rule strikes on the nth such weekday of its month, 5 meaning the last |
| PosixZone.JulianDayRule | date/ptz.h:104-106 | a J rule names the same month and day every year, never 29 February |
| PosixZone.DayOfYearRule | date/ptz.h:110-112 | a plain number counts days from 1 January |
| PosixZone.RuleNamesDay | date/ptz.h:95-117 | the day a rule computes is the one its kind names, by date and weekday, and no other |
| PosixZone.ClockChanges | date/ptz.h:95-117 | daylight saving starts exactly when the standard clock shows the start rule's time on the named day, and ends when the summer clock shows the end rule's |
| PosixZone.RecordInForce | date/ptz.h:211-253 | offset, saving in minutes rounded up, abbreviation, begin and end of the record at any instant, from those clock changes alone |
| PosixZone.NewYork2007 | date/ptz.h:211-253 | EST5EDT,M3.2.0,M11.1.0 changes on 11 March 2007 at 07:00 UTC and on 4 November at 06:00 UTC |
| PosixZone.ConstantRecord | date/ptz.h:246-251 | without daylight saving there is one record, from the first day of year -32767 to the last of 32767 |
| LeapSeconds.ComputeIsLeapSecond | date/tz.h:1896-1923 | updating tp, ds and ls gives the specified pair |
| LeapSeconds.ComputeToSys | date/tz.h:1925-1936 | the same for `to_sys` |
| LeapSeconds.FromSysIncreasing | date/tz.h:1885-1894 | `from_sys` is strictly increasing, for any increasing table |
| LeapSeconds.IsLeapSecondExact | date/tz.h:1896-1923 | on a spaced table the search on the system scale with its correction equals the search on the UTC scale, and the flag means an insertion is running |
| LeapSeconds.ExactIffSpaced | date/tz.h:1896-1923 | it is right for every instant exactly when the kth gap is at least k seconds (the table is spaced) |
| LeapSeconds.Galois | date/tz.h:1885-1936 | on a spaced table `from_sys(t) <= u` exactly when `t <= to_sys(u)`, for every tick size |
| LeapSeconds.GaloisIff | date/tz.h:1885-1936 | that holds for all t and u exactly on spaced tables; with ticks of a second, exactly when the kth gap is at least k - 1 seconds |
| LeapSeconds.ClockRoundTrip | date/tz.h:1885-1936 | on a spaced table `to_sys(from_sys(t)) == t` and `to_sys` is non-decreasing |
| LeapSeconds.RoundTripsIff | date/tz.h:1885-1936 | `to_sys(from_sys(t)) == t` for every t exactly when the kth gap is at least k - 1 seconds |
| LeapSeconds.LeapIffNotInImage | date/tz.h:1896-1923 | on a spaced table `is_leap_second` is true exactly on the UTC instants no system time maps to |
| LeapSeconds.TextRoundTripsIff | date/tz.h:1961-2020 | on a spaced table every UTC time, second 60 included, parses to what was printed exactly when insertions come at whole minutes |
| LeapSeconds.PrintedText | date/tz.h:1961-1979 | on a spaced table the printed fields show the system time, and during an insertion the second it stands for |
| LeapSeconds.ParseUtcMeans | date/tz.h:1990-2020 | on a spaced table, for any fields: second 60 is read exactly where an insertion follows second 59, every other valid time as that of its system time, and the rest fails |
| TimeOfDay.WidthIsLeast | date/date.h:3643-3663 | `width<n>` is the least w with n dividing 10^w, capped at 19, for every 64-bit n; the wrap-around never happens |
| TimeOfDay.DurationRoundTrip | date/date.h:3716-3728 | when 18 digits are enough, splitting a duration of either sign, in whole seconds or any fraction of them, and `to_duration` lose nothing |
| TimeOfDay.Microseconds | date/date.h:3687-3692 | where 18 digits are not enough the subseconds are microseconds, rounded down |
| TimeOfDay.SplitDigits | date/date.h:4218-4224 | the split has minutes and seconds below 60 and the exact remainder |
| TimeOfDay.Clock.Make12 | date/date.h:3907-3928 | the hour and mode `make12` leaves |
| TimeOfDay.Clock.Make24 | date/date.h:3898-3905 | the hour `make24` leaves |
| TimeOfDay.ThereAndBack | date/date.h:3878-3928 | `make12` then `make24` keeps every hour except 24, which becomes 12 |
| TimeOfDay.TwelveHourBijection | date/date.h:3878-3928 | on hours 0 to 23 the 12-hour clock shows 1 to 12 and the conversions are inverse; later hours count on in the afternoon |
| ScanKeyword.Scan | date/date.h:4562-4665 | consumes the longest prefix that begins a keyword ignoring case, returns the first keyword equal to it, fails exactly if there is none, and sees end of file exactly if a keyword wanted more |
| ScanKeyword.ScanIgnoresCase | date/date.h:4606-4619 | inputs that differ only in the case of letters a to z are consumed alike, find the same keyword and set the same bits |
| ScanKeyword.Turn | date/date.h:4594-4650 | after one character statuses and both counters are those of the new prefix, although stale matches are only swept when more than one entry is left |
| ScanKeyword.Compare | date/date.h:4613-4634 | the comparing pass, with the counters equal to the numbers of entries and no keyword indexed past its end |
| ScanKeyword.DropShorter | date/date.h:4642-4649 | the sweep drops exactly the shorter matches |
| ScanKeyword.Initialize | date/date.h:4579-4593 | empty keywords match at once, and the counters say so |
| ModuleId.Normalize | jsengine/duk_module_duktape.c:81-180 | the in-place loop succeeds exactly when the stack of terms does, leaves the same id and last component, keeps the write cursor behind the read cursor, reads and writes nothing past the NUL, and terminates |
| ModuleId.Backtrack | jsengine/duk_module_duktape.c:117-131 | backtracking drops exactly the last written term |
| ModuleId.CopyTerm | jsengine/duk_module_duktape.c:138-155 | a term is moved down intact and the unread input is untouched |
| ModuleId.ResolveModuleId | jsengine/duk_module_duktape.c:31-180 | composing, length check and loop give the specified id or error |
| ModuleId.ResolveMeans | jsengine/duk_module_duktape.c:81-180 | an id resolves if and only if it starts with no slash, has only names, empty parts, `.` and `..`, ends in a name and never climbs above the root; the result is the names that no later `..` cancels |
| ModuleId.RelativeRequest | jsengine/duk_module_duktape.c:59-80 | `./x` and `../x` from a module, for any path x of names: beside its parent, and beside its parent's parent or an error at the top level; 256 bytes or more are an error |
| ModuleId.TopLevelRequest | jsengine/duk_module_duktape.c:70-80 | without a requiring module `./x` is x and `../x` an error |
| ModuleId.AbsoluteRequest | jsengine/duk_module_duktape.c:70-80 | any other request ignores the requiring module, and a path of names is its own id |
| ModuleId.ResolvedIsCanonical | jsengine/duk_module_duktape.c:43-53 | a resolved id has no empty, `.` or `..` terms and is never longer than the input |
| ModuleId.ResolveIdempotent | jsengine/duk_module_duktape.c:81-180 | an id made of names resolves to itself |
| ModuleId.ResolvedIdIsStable | jsengine/duk_module_duktape.c:70-180 | requiring a resolved id from any module resolves to the same id |
| ModuleId.RelativeIsAgainstParent | jsengine/duk_module_duktape.c:59-74 | a relative request against a resolved module id has the terms it would have appended to that id's parent |
| ModuleId.RelativeIdAgainstParent | jsengine/duk_module_duktape.c:70-80 | at the interface: an error if the composed input does not fit 256 bytes, and otherwise what resolving against the parent alone gives |
| ModuleRegistry.Loader.RequireModule | jsengine/duk_module_duktape.c:225-436 | the registering and deleting method computes the protocol on values |
| ModuleRegistry.LoadExtends | jsengine/duk_module_duktape.c:298-304 | an id registered on entry is registered to the same module on exit, however the call ends |
| ModuleRegistry.LoadRegisters | jsengine/duk_module_duktape.c:413-436 | on success the id is registered to the module returned; a failing load leaves it unregistered |
| ModuleRegistry.LoadOutcome | jsengine/duk_module_duktape.c:225-436 | for every state and script: a require succeeds exactly when its id is registered or the module's script ends well, which module it returns, and which ids it leaves registered |
| ModuleRegistry.CatchingScript | jsengine/duk_module_duktape.c:413-436 | a script that catches every exception ends as its last step does |
| ModuleRegistry.FirstLoad | jsengine/duk_module_duktape.c:298-436 | code that runs through is registered and returned, code that throws at once leaves the registry as it was |
| ModuleRegistry.NestedStays | jsengine/duk_module_duktape.c:413-436 | a module that loaded stays when the one that required it fails |
| ModuleRegistry.CyclicRequire | jsengine/duk_module_duktape.c:225-246 | while a module loads, every require of its id returns that very module, after any code run by any module since |
| ModuleRegistry.LoadValid | jsengine/duk_module_duktape.c:298-436 | every run keeps registry and log of starts and failures consistent, with one identity per module |
| ModuleRegistry.NoRestart | jsengine/duk_module_duktape.c:237-246 | two starts of one id have a failure of it in between |
| ModuleRegistry.EveryRunValid | jsengine/duk_module_duktape.c:225-436 | both hold after any sequence of requires from the empty registry |
| ModuleRegistry.LoadDepthBound | jsengine/duk_module_duktape.c:237-304 | loads nest no deeper than the number of ids not registered yet |
| ByteStreams.Writer.WriteByte | io/ByteStreamWriter.cpp:37-51 | overwrites inside the data, extends at its end |
| ByteStreams.Writer.WriteNumber | io/ByteStreamWriter.cpp:53-80 | the shift loops write the little-endian bytes |
| ByteStreams.Writer.WriteString | io/ByteStreamWriter.cpp:109-121 | a 32-bit size and then the characters |
| ByteStreams.Writer.Write | io/ByteStreamWriter.cpp:37-121 | the bytes written are the wire format: little-endian numbers, two's complement, 1 for true and 0 for false, a 32-bit size before the characters |
| ByteStreams.Writer.WriteAll | io/ByteStreamWriter.cpp:37-121 | any list of values changes exactly the bytes written and keeps the cursor within the data |
| ByteStreams.Reader.ReadNumber | io/ByteStreamReader.cpp:62-96 | the accumulating loops read the little-endian number, and 0 without moving where the whole array is too small for one |
| ByteStreams.Reader.ReadString | io/ByteStreamReader.cpp:121-143 | appends the characters, or nothing when the size exceeds what is left |
| ByteStreams.Reader.Read | io/ByteStreamReader.cpp:52-143 | what each type reads from the bytes left: any non-zero byte is true, numbers are little-endian, a string longer than what is left is empty |
| ByteStreams.Reader.ReadAll | io/ByteStreamReader.cpp:52-143 | reads what `DecodeAll` says and leaves the rest |
| ByteStreams.ByteArray.GetUint32 | io/ByteArray.cpp:175-192 | the little-endian number at an index, or 0 where the bytes do not all exist |
| ByteStreams.DecodeAllEncodeAll | io/ByteStreamReader.cpp:52-143 | every list of values comes back from its encoding and what follows is untouched |
| ByteStreams.EncodeIsWire | io/ByteStreamWriter.cpp:37-121 | the encoding of every value, byte by byte |
| ByteStreams.DecodeReads | io/ByteStreamReader.cpp:52-143 | the decoding of any bytes, and that it is undefined exactly where a type needs more bytes than are left |
| ByteStreams.OverlayChangesOnly | io/ByteStreamWriter.cpp:37-51 | writing at a position changes the bytes written and no others |
| ByteStreams.WriteThenRead | io/ByteStreamWriter.cpp:23-121 | writing any list at any seek position and reading the same types there returns the list, with both cursors at the end of the written bytes |

## Left out

- Characters of formatted text, locale facets, stream flags and widths: only the week arithmetic, the UTC fields and `scan_keyword` of the formatter and parser are modelled.
- The parser's centuries, two-digit years, day-of-year and time-of-day fields.
- The right answers for zones whose daylight saving crosses the new year: the code compares both transitions of one year; what it answers instead is stated.
- TZ strings (`read_name`, `read_date`, `read_unsigned`): a zone is its fields; the values POSIX allows are assumed where a lemma names them.
- PosixZone.LocalInfoClassifies: like the four results on conversions after it, assumes that transitions keep away from the new year by the offset and the saving, and that daylight saving lasts longer than the saving; `PosixZone.MonthlyRulesAdmissible` gives zones for which that holds.
- PosixZone.GetSysInfo: does not model the narrowing of years to `short` far from the present.
- WeekFields.ParseDate: does not model week numbers above 300 million, whose days overflow an `int` (undefined in the source); conversions to `short` and `unsigned char` wrap, as on every usual compiler.
- Rule days of invalid months or weekday indices, which the source does not check and for which it reads outside its table.
- `pre_leap`, `mjd` and the TAI and GPS clocks before 1972 (long double arithmetic), and the time zone database, whose implementation is not part of this model.
- Times of day in whole minutes or hours, whose classes drop fields of the one modelled.
- Overflow of tick counts in `TimeOfDay` and `LeapSeconds`: durations are unbounded integers.
- ScanKeyword.Scan: the stream is in a good state on entry, and `toupper` is that of the C locale.
- Duktape values, module source text and `modSearch`: what loading a module does is an arbitrary finite script of requires, through any require function, ending in success or an exception, that does not tamper with `modLoaded`.
- ModuleRegistry.LoadRegisters: does not model accessors that `modSearch` may put on `module`; one that throws when the source reads `filename`, `name` or `exports` outside its protected calls leaves the id registered.
- Reads of numbers, in an array large enough for one, with too few bytes left: the source then uses an uninitialised byte, and `ByteStreams.Reader.ReadNumber` requires the bytes.
- Arrays of 2^32 bytes or more, `GetUint16` (the two-byte `GetUint32`), `SubArray`, `Erase`, `FindFirstOf` and the constructors of `ByteArray`.
- Comparison and `operator/` overloads, literals, stream inserters, `json`, `lora`, `network`, `db`, `mbedtls` and the script engine wrapper.
