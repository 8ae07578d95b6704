# Synnotech.Time in Dafny

A model of the core of Synnotech.Time, a small .NET library of time helpers,
with proofs about it. The model has two parts:

- The extension methods of `TimeExtensions`:
  - `CalculateIntervalForSameTimeNextDay` gives the interval from `now` to tomorrow's occurrence of a time of day.
  - `CalculateIntervalForSameTime` gives the interval to the next occurrence of a time of day, today or tomorrow.
  - `TryConvertToTimeOfDay` and `TryConvertToUtcTimeOfDay` turn a `TimeSpan` into a time of day on 0001-01-01.
- `TestClock`, a clock for tests. Its time is fixed at construction and moved on only by `AdvanceTime`.

The .NET types these work on are modelled from first principles:

- `DateTime` is a tick count (100 ns units since 0001-01-01) in `0 .. 3155378975999999999` together with a `DateTimeKind`.
- `TimeSpan` is a signed tick count. Its components truncate toward zero, as C# division does.
- The proleptic Gregorian calendar behind `Year`/`Month`/`Day` and the `DateTime` constructor follows .NET's 400/100/4/1-year cycle decomposition. Both directions are proved inverse on the whole range.
- `ToUniversalTime` depends on the host's time zone. That zone is a parameter `offset`: the UTC offset, in ticks, of a local wall-clock reading. The zone's rules are therefore never fixed, and each property says what it needs of the offset, for example "no change overnight" or "a one-hour jump".

Files:

- `calendar.dfy` (module `Calendar`): day numbers and dates.
- `datetimes.dfy` (module `DateTimes`): `DateTime`, `TimeSpan`, components, the constructor, `Add`, subtraction and `ToUniversalTime`.
- `time_extensions.dfy` (module `TimeExtensions`): the extension methods. They are pure functions.
- `test_clock.dfy` (module `Clocks`): the class `TestClock`, with one mutable field, and small client methods.
- `scenarios.dfy` (module `Scenarios`): the concrete cases of the repository's tests, as lemmas.

## Model

| member | source | states |
|---|---|---|
| `Calendar.DaysInMonth` | Code/Synnotech.Time/TimeExtensions.cs:18 | A month has 28 to 31 days, and February has 29 exactly in leap years. This bounds the day the `DateTime` constructor accepts. |
| `Calendar.DayNumber` | Code/Synnotech.Time/TimeExtensions.cs:18 | The constructor's date-to-days step maps every valid date from 0001-01-01 to 9999-12-31 into `0 .. DaysTo10000 - 1`. |
| `Calendar.CivilFromDays` | Code/Synnotech.Time/TimeExtensions.cs:18 | `Year`/`Month`/`Day` of a day number form a valid date, and the constructor maps that date back to the same day number. |
| `Calendar.DayNumberRoundTrip` | Code/Synnotech.Time/TimeExtensions.cs:32 | Taking apart the day number of any valid date gives that date back. So rebuilding a `DateTime` from `now.Year/Month/Day` lands on `now`'s day. |
| `Calendar.DayNumberInjective` | Code/Synnotech.Time/TimeExtensions.cs:32 | Distinct valid dates have distinct day numbers. |
| `DateTimes.NewDateTime` | Code/Synnotech.Time/TimeExtensions.cs:18 | `new DateTime(y, m, d, h, mi, s, ms, kind)` on valid arguments reads back date, hour, minute, second, millisecond and kind as given, with no ticks below the millisecond. |
| `DateTimes.ClockTicksOfFields` | Code/Synnotech.Time/TimeExtensions.cs:18 | A `DateTime` is its day, plus the clock reading that its `Hour`, `Minute`, `Second` and `Millisecond` add up to, plus its ticks below a millisecond. |
| `DateTimes.Add` | Code/Synnotech.Time/TestClock.cs:43 | `DateTime.Add` keeps the kind and moves the ticks by exactly the span. |
| `DateTimes.Subtract` | Code/Synnotech.Time/TimeExtensions.cs:19 | `a - b` ignores kinds. Its ticks lie within the range, and adding the difference back to `b` stays in range. |
| `DateTimes.AddSubtractRoundTrip` | Code/Synnotech.Time/TimeExtensions.cs:34 | Adding `a - b` to `b` gives `a` back when the kinds agree. |
| `DateTimes.ToUniversalTime` | Code/Synnotech.Time/TimeExtensions.cs:19 | The result has kind Utc. A Utc value is unchanged. Otherwise the offset is subtracted when that stays in range. A result below the range is clamped to `MinValue`, and one above it to `MaxValue`. |
| `DateTimes.UnclampedInMidRange` | Code/Synnotech.Time/TimeExtensions.cs:19 | With a zone's offset within ±14 h, a reading at least 14 h from both ends of the range converts to UTC without clamping. |
| `DateTimes.TruncDiv` | Code/Synnotech.Time/TimeExtensions.cs:56 | C#'s `/` on a span's ticks rounds toward zero: for `a >= 0`, `q * b <= a < q * b + b`; for `a <= 0`, `q * b - b < a <= q * b`. |
| `DateTimes.TruncRem` | Code/Synnotech.Time/TimeExtensions.cs:56 | C#'s `%`: `(a / b) * b + a % b == a`, and the remainder lies strictly within `±b` and takes the sign of the dividend. |
| `DateTimes.HoursRange` | Code/Synnotech.Time/TimeExtensions.cs:50 | `TimeSpan.Hours` lies in `-23 .. 23`, and in `0 .. 23` for a non-negative span. So the `Hours >= 24` test never fires. |
| `DateTimes.NonNegativeSpanFields` | Code/Synnotech.Time/TimeExtensions.cs:56 | On a non-negative span, `Days`, `Hours`, `Minutes`, `Seconds` and `Milliseconds` are the Euclidean digits of its ticks. |
| `TimeExtensions.CalculateIntervalForSameTimeNextDay` | Code/Synnotech.Time/TimeExtensions.cs:15-20 | It takes tomorrow's date, attaches the clock fields and kind of `timeOfDay`, converts both ends to UTC and subtracts. The result is the UTC distance from `now` to the day after `now`'s day at `timeOfDay`'s clock reading to the millisecond (`TomorrowAt`). |
| `TimeExtensions.NextDayTargetTicks` | Code/Synnotech.Time/TimeExtensions.cs:17-18 | The target built through the calendar from `now.AddDays(1)` is exactly one day after `now`'s day, at `timeOfDay`'s clock reading, with `timeOfDay`'s kind. |
| `TimeExtensions.NextDayIgnoresDateOfTimeOfDay` | Code/Synnotech.Time/TimeExtensions.cs:14-18 | Two `timeOfDay` values with the same hour, minute, second, millisecond and kind give the same interval, whatever their dates and sub-millisecond ticks. |
| `TimeExtensions.NextDayAcrossOffsetChange` | Code/Synnotech.Time/TimeExtensions.cs:19 | Away from the range ends, the interval is one day plus the difference of the two times of day, minus the growth of the UTC offset between `now` and the target. |
| `TimeExtensions.NextDayWithSteadyOffset` | Code/Synnotech.Time/TimeExtensions.cs:17-19 | With the same offset at both ends, the interval is one day plus the difference of the times of day. It lies strictly between 0 and 2 days. |
| `TimeExtensions.CalculateIntervalForSameTime` | Code/Synnotech.Time/TimeExtensions.cs:30-36 | Today's occurrence (`TodayAt`) has `timeOfDay`'s hour, minute and second, no milliseconds, and kind Unspecified. If it is strictly later than `now`, the result is the plain tick difference, strictly between 0 and 1 day. Otherwise the result is the next-day interval. |
| `TimeExtensions.SameDayTicks` | Code/Synnotech.Time/TimeExtensions.cs:32 | The value built from `now.Year/Month/Day` and `timeOfDay`'s hour, minute and second is `now`'s day at that clock reading to the second. |
| `TimeExtensions.SameTimeExactMatchIsOneDay` | Code/Synnotech.Time/TimeExtensions.cs:26 | When `now` is exactly at `timeOfDay`'s clock reading, milliseconds included, and the offset does not change, the result is 24 hours, not zero. |
| `TimeExtensions.SameTimeWithSteadyOffset` | Code/Synnotech.Time/TimeExtensions.cs:30-36 | With no offset change on the next-day path, the result is positive and under one day plus one second. It is at most one day when `timeOfDay` has no milliseconds. |
| `TimeExtensions.SameDayPathIgnoresOffset` | Code/Synnotech.Time/TimeExtensions.cs:33-34 | On the same-day path the result does not depend on the time zone. |
| `TimeExtensions.CalculateIntervalForSameTimeToMillisecond` | Code/Synnotech.Time/TimeExtensions.cs:32-35 | Corrected same-time interval that keeps `timeOfDay`'s milliseconds. With a steady offset the result is the distance to the next instant strictly after `now` whose clock reads `timeOfDay`: more than 0 and at most one day. |
| `TimeExtensions.TryConvertToTimeOfDay` | Code/Synnotech.Time/TimeExtensions.cs:48-58 | It succeeds exactly for non-negative spans. A failure yields `default(DateTime)`. A success yields 0001-01-01 at the span modulo one day, cut to whole milliseconds, with the requested kind; the default kind is Local. |
| `TimeExtensions.TimeOfDayTicksOfSpan` | Code/Synnotech.Time/TimeExtensions.cs:56 | A 0001-01-01 value carrying a non-negative span's `Hours`/`Minutes`/`Seconds`/`Milliseconds` holds that span modulo a day, to the millisecond. |
| `TimeExtensions.TryConvertReadsBackSpanFields` | Code/Synnotech.Time/TimeExtensions.cs:56 | For a non-negative span, the conversion succeeds with exactly `new DateTime(1, 1, 1, Hours, Minutes, Seconds, Milliseconds, kind)`. |
| `TimeExtensions.TryConvertIgnoresDays` | Code/Synnotech.Time/TimeExtensions.cs:44-56 | Adding whole days to a non-negative span does not change the conversion. |
| `TimeExtensions.TryConvertToUtcTimeOfDay` | Code/Synnotech.Time/TimeExtensions.cs:69-70 | It succeeds exactly for non-negative spans, yields `default(DateTime)` on failure, and on success the span modulo a day, cut to whole milliseconds, with kind Utc. |
| `Clocks.TestClock.Default` | Code/Synnotech.Time/TestClock.cs:23 | `InitialTime` and the current time are the same single `UtcNow` reading, with kind Utc. |
| `Clocks.TestClock.constructor` | Code/Synnotech.Time/TestClock.cs:29 | `InitialTime` and the current time are the given value, kind included. |
| `Clocks.TestClock.GetTime` | Code/Synnotech.Time/TestClock.cs:34 | It returns the current time and changes nothing. |
| `Clocks.TestClock.AdvanceTime` | Code/Synnotech.Time/TestClock.cs:41-45 | The current time becomes the old one plus the span, possibly negative, with the kind kept; the difference new − old is the span. `InitialTime` (a `const`) is untouched, and the same instance is returned for chaining. |
| `Clocks.ReadTwice` | Code/Synnotech.Time/TestClock.cs:34 | Two reads with nothing in between return the same time. |
| `Clocks.CreateWithInitialTime` | Code/Synnotech.Time.Tests/TestClockTests.cs:23-26 | A clock made with a value reports that value as `InitialTime` and from `GetTime()`. |
| `Clocks.AdvanceNewClock` | Code/Synnotech.Time.Tests/TestClockTests.cs:41-43 | `new TestClock().AdvanceTime(s).GetTime()` equals `InitialTime.Add(s)`, with kind Utc. |
| `Clocks.AdvanceTwice` | Code/Synnotech.Time/TestClock.cs:39-45 | Chained advances act on one clock and add up: advancing by `a` and then by `b` is advancing by `a + b`. |
| `Scenarios.LocalAt` | Code/Synnotech.Time.Tests/CalculateIntervalForSameTimeNextDay.cs:13 | `new DateTime(y, m, d, h, mi, s, DateTimeKind.Local)` is a local reading of that date and time. |
| `Scenarios.LocalReadingIsLocalAt` | Code/Synnotech.Time.Tests/CalculateIntervalForSameTimeNextDay.cs:23 | A DateTime is a local reading of a date and time exactly when it equals the constructor's value for them. |
| `Scenarios.LocalReadingTicks` | Code/Synnotech.Time/TimeExtensions.cs:32 | A local reading is its date's day number in days plus its clock reading. |
| `Scenarios.StartTime` | Code/Synnotech.Time.Tests/CalculateIntervalUntilTests.cs:11 | The tests' start time reads 04:15:00.000 local. This is the hypothesis that the scenario lemmas place on `startTime`. |
| `Scenarios.TargetClock` | Code/Synnotech.Time/TimeExtensions.cs:18 | The target time of day counts only through its clock fields. |
| `Scenarios.NextDayFromLocalReading` | Code/Synnotech.Time/TimeExtensions.cs:17-19 | From a local reading `clock` ticks into a day, the next-day interval is one day plus the target's clock, minus `clock`, minus the offset change. |
| `Scenarios.SameTimeFromLocalReading` | Code/Synnotech.Time/TimeExtensions.cs:32-35 | From a local reading, the result is today's whole-second occurrence when that is still ahead, and the next-day interval otherwise. |
| `Scenarios.NextDaySimpleExample` | Code/Synnotech.Time.Tests/CalculateIntervalForSameTimeNextDay.cs:23 | From 2017-10-04 12:00 with target 04:15 and a steady offset, the interval is 16:15. |
| `Scenarios.NextDaySimpleExampleAtStartTime` | Code/Synnotech.Time.Tests/CalculateIntervalForSameTimeNextDay.cs:13-17 | With the tests' own start time value, 2017-10-04 12:00 gives 16:15 with a steady offset. |
| `Scenarios.NextDayNewYearsEve` | Code/Synnotech.Time.Tests/CalculateIntervalForSameTimeNextDay.cs:24 | From 2016-12-31 04:15:01, across the year boundary, the interval is 23:59:59. |
| `Scenarios.NextDaySpringForward` | Code/Synnotech.Time.Tests/CalculateIntervalForSameTimeNextDay.cs:25 | From 2017-03-25 18:00, with the offset one hour larger at the target, the interval is 9:15. |
| `Scenarios.NextDayFallBack` | Code/Synnotech.Time.Tests/CalculateIntervalForSameTimeNextDay.cs:26 | From 2017-10-28 18:00, with the offset one hour smaller at the target, the interval is 11:15. |
| `Scenarios.SameTimeLaterToday` | Code/Synnotech.Time.Tests/CalculateIntervalUntilTests.cs:21 | 04:12 with target 04:15 gives three minutes, whatever the zone. |
| `Scenarios.SameTimeAlreadyPassed` | Code/Synnotech.Time.Tests/CalculateIntervalUntilTests.cs:22 | 04:16 with target 04:15 gives 23:59. |
| `Scenarios.SameTimeNewYearsEve` | Code/Synnotech.Time.Tests/CalculateIntervalUntilTests.cs:23 | 2016-12-31 04:15:01 with target 04:15 gives 23:59:59. |
| `Scenarios.SameTimeExactly` | Code/Synnotech.Time.Tests/CalculateIntervalUntilTests.cs:24 | Exactly 04:15:00 with target 04:15 gives 24:00:00. |
| `Scenarios.SameTimeSpringForward` | Code/Synnotech.Time.Tests/CalculateIntervalUntilTests.cs:38 | 2017-03-25 18:00 falls back to the next-day path and gives 9:15 across a one-hour jump forward. |
| `Scenarios.SameTimeFallBack` | Code/Synnotech.Time.Tests/CalculateIntervalUntilTests.cs:39 | 2017-10-28 18:00 gives 11:15 across a one-hour jump back. |
| `Scenarios.SameTimeDropsMilliseconds` | Code/Synnotech.Time/TimeExtensions.cs:32 | At 04:15:00.000 with target 04:15:00.500, the code as written gives one day and half a second; the corrected interval gives half a second. |
| `Scenarios.TryConvertValidSpans` | Code/Synnotech.Time.Tests/TryConvertToTimeOfDayTests.cs:25-38 | The tests' valid spans convert, with either kind, to `new DateTime(1, 1, 1, Hours, Minutes, Seconds, Milliseconds, kind)`; the Utc variant agrees. |
| `Scenarios.TryConvertInvalidSpans` | Code/Synnotech.Time.Tests/TryConvertToTimeOfDayTests.cs:41-56 | The tests' negative spans fail and yield `default(DateTime)`. |

## Left out

- `IClock`, `LocalClock` and `UtcClock` are one-line reads of the host clock (`DateTime.Now`, `DateTime.UtcNow`) behind an interface. They are not modelled. `GetTime` is modelled on `TestClock` itself, not through an interface.
- `DailyJob` is not modelled: it is timer plumbing (`System.Timers.Timer`, callbacks on pool threads, start/stop/dispose). It only consumes `CalculateIntervalForSameTimeNextDay`, which is modelled.
- The host's time-zone and daylight-saving rules are not modelled; they are the parameter `offset`. Ambiguous and invalid local times are whatever offset that function gives them, and no particular zone's rules are encoded.
- The default constructor's read of `DateTime.UtcNow` is a constructor parameter.
- `now.AddDays(1.0)` takes a `double`. Only the literal `1.0` is passed, so it is modelled as the exact addition of one day of ticks.
- `TimeSpan` ticks are unbounded integers. The 64-bit range of `TimeSpan` is not modelled: no operation here can leave it, because the difference of two valid `DateTime` values always fits.
- `TimeExtensions.CalculateIntervalForSameTimeNextDay`: the `ArgumentOutOfRangeException` that `AddDays` throws on 9999-12-31 is excluded by a precondition, not modelled as an error result.
- `TimeExtensions.CalculateIntervalForSameTime`: likewise, the call needs room for a day only when it takes the next-day path.
- `Clocks.TestClock.AdvanceTime`: an advance that leaves the range throws in the source; the model excludes it by a precondition.
- `DateTimes.ToUniversalTime`: the offset is looked up at the local reading itself, as one value per reading. .NET's handling of the hour skipped or repeated by a daylight-saving switch is left to whatever `offset` returns for those readings.
- The scenario lemmas describe the readings of the tests (`new DateTime(2017, 10, 4, 12, 0, 0, DateTimeKind.Local)` and so on) as any value with that date, clock reading and kind. `Scenarios.LocalReadingIsLocalAt` proves this describes the constructor's value exactly. Likewise the tests' start time is any local value reading 04:15:00.000, as its date is ignored. The daylight-saving cases state the one-hour offset change they rely on rather than a German zone.
- The test file `CalculateIntervalUntilTests.cs` calls `CalculateIntervalUntil`, a method that `TimeExtensions.cs` does not define. The model follows the code: those expectations are proved about `CalculateIntervalForSameTime`, whose remark states the same 24-hour rule.
- `TestClock.cs` has only the two constructors modelled here. A clock that replays a list of times does not exist in the code and is not modelled.
- The culture switch that skips the daylight-saving tests, and the tolerance of `BeCloseTo`, are test tooling, not behaviour.

## Findings

| source | as written | input that shows it | evidently intended | confidence | as-written member | corrected member |
|---|---|---|---|---|---|---|
| Code/Synnotech.Time/TimeExtensions.cs:32 | Today's occurrence is built from `timeOfDay`'s hour, minute and second only, dropping its millisecond; the next-day path (line 18) keeps it. | `now` = 2017-10-04 04:15:00.000 local, `timeOfDay` = 04:15:00.500 local, steady offset: the result is 1 day 0.5 s, although 04:15:00.500 comes round in 0.5 s. | The interval to the next instant after `now` whose clock reads `timeOfDay`, never more than one day (the summary at lines 22-23). | medium, not executed | `Scenarios.SameTimeDropsMilliseconds` (on `TimeExtensions.CalculateIntervalForSameTime`) | `TimeExtensions.CalculateIntervalForSameTimeToMillisecond` |
