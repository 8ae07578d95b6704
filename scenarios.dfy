/**
 * The concrete cases the repository's tests check, stated as lemmas about
 * the model. A reading such as "2017-10-04 12:00 local" is any DateTime with
 * that date, that clock reading and kind Local, which is exactly what the
 * DateTime constructor builds (LocalReadingIsLocalAt). The zone is left open:
 * a case that needs "no offset change" or "a one-hour jump" says so about
 * `offset` at `now` and at the target.
 */
module Scenarios {
  import opened Calendar
  import opened DateTimes
  import opened TimeExtensions

  /** `new DateTime(year, month, day, hour, minute, second, DateTimeKind.Local)`. */
  function LocalAt(year: int, month: int, day: int, hour: int, minute: int, second: int): (t: DateTime)
    requires ValidDate(year, month, day) && 0 <= hour < 24 && 0 <= minute < 60 && 0 <= second < 60
    ensures IsLocalReading(t, year, month, day, hour, minute, second)
  {
    NewDateTime(year, month, day, hour, minute, second, 0, Local)
  }

  /** `new TimeSpan(hours, minutes, seconds)`. */
  function Span(hours: int, minutes: int, seconds: int): TimeSpan {
    TimeSpan(hours * TicksPerHour + minutes * TicksPerMinute + seconds * TicksPerSecond)
  }

  /** `t` shows the given hour, minute, second and millisecond. */
  predicate ReadsClock(t: DateTime, hour: int, minute: int, second: int, millisecond: int) {
    Hour(t) == hour && Minute(t) == minute && Second(t) == second && Millisecond(t) == millisecond
  }

  /** `t` is the local reading of the given date and time, to the tick. */
  predicate IsLocalReading(t: DateTime, year: int, month: int, day: int, hour: int, minute: int, second: int) {
    && t.kind == Local && DatePart(t) == Date(year, month, day)
    && ReadsClock(t, hour, minute, second, 0) && t.ticks % TicksPerMillisecond == 0
  }

  /** A local reading is its day number's worth of days plus its clock reading. */
  lemma LocalReadingTicks(t: DateTime, year: int, month: int, day: int, hour: int, minute: int, second: int, days: int)
    requires ValidDate(year, month, day) && 0 <= hour < 24 && 0 <= minute < 60 && 0 <= second < 60
    requires IsLocalReading(t, year, month, day, hour, minute, second) && days == DayNumber(year, month, day)
    ensures t.ticks == days * TicksPerDay + Span(hour, minute, second).ticks
  {
    assert DayNumber(year, month, day) == t.ticks / TicksPerDay;
    ClockTicksOfFields(t);
  }

  /** The readings the lemmas below speak of are exactly the values the DateTime constructor builds. */
  lemma LocalReadingIsLocalAt(t: DateTime, year: int, month: int, day: int, hour: int, minute: int, second: int)
    requires ValidDate(year, month, day) && 0 <= hour < 24 && 0 <= minute < 60 && 0 <= second < 60
    ensures IsLocalReading(t, year, month, day, hour, minute, second) <==> t == LocalAt(year, month, day, hour, minute, second)
  {
    if IsLocalReading(t, year, month, day, hour, minute, second) {
      var days := DayNumber(year, month, day);
      var u := LocalAt(year, month, day, hour, minute, second);
      LocalReadingTicks(t, year, month, day, hour, minute, second, days);
      LocalReadingTicks(u, year, month, day, hour, minute, second, days);
    }
  }

  /**
   * The tests' start time, `new DateTime(1, 1, 1, 4, 15, 0, DateTimeKind.Local)`.
   * Its contract is the hypothesis the scenario lemmas below place on
   * `startTime`; those lemmas are stated for every value meeting it, so they
   * hold in particular for StartTime() (NextDaySimpleExampleAtStartTime).
   */
  function StartTime(): (t: DateTime)
    ensures ReadsClock(t, 4, 15, 0, 0) && t.kind == Local
  {
    LocalAt(1, 1, 1, 4, 15, 0)
  }

  /** A target time of day given by its clock fields alone, as the date of `timeOfDay` is ignored. */
  lemma TargetClock(timeOfDay: DateTime, hour: int, minute: int, second: int, millisecond: int)
    requires ReadsClock(timeOfDay, hour, minute, second, millisecond)
    ensures ClockTicks(timeOfDay) == Span(hour, minute, second).ticks + millisecond * TicksPerMillisecond
  {
    ClockTicksOfFields(timeOfDay);
  }

  /**
   * The next-day interval from a local reading `clock` ticks into day `days`
   * to a local `timeOfDay`, when the zone's offset at the target exceeds the
   * one at `now` by `shift`.
   */
  lemma NextDayFromLocalReading(now: DateTime, timeOfDay: DateTime, offset: int -> int, days: int, clock: int, shift: int)
    requires now.kind == Local && timeOfDay.kind == Local
    requires 1 <= days <= DaysTo10000 - 3 && 0 <= clock < TicksPerDay
    requires now.ticks == days * TicksPerDay + clock
    requires BoundedOffset(offset)
    requires offset(now.ticks + TicksPerDay + ClockTicks(timeOfDay) - clock) == offset(now.ticks) + shift
    ensures now.ticks <= MaxTicks - TicksPerDay
    ensures CalculateIntervalForSameTimeNextDay(now, timeOfDay, offset).ticks
            == TicksPerDay + ClockTicks(timeOfDay) - clock - shift
  {
    DivModUnique(now.ticks, TicksPerDay, days, clock);
    ClockTicksInDay(timeOfDay);
    var target := TomorrowAt(now, timeOfDay);
    assert target.ticks == now.ticks + TicksPerDay + ClockTicks(timeOfDay) - clock;
    UnclampedInMidRange(now, offset);
    UnclampedInMidRange(target, offset);
    assert UtcShift(timeOfDay.kind, target.ticks, offset) - UtcShift(now.kind, now.ticks, offset) == shift;
    NextDayAcrossOffsetChange(now, timeOfDay, offset);
  }

  /**
   * The same-time interval from a local reading `clock` ticks into day `days`
   * to a local `timeOfDay`: today's occurrence to the second when it is still
   * ahead, otherwise the next-day interval with an offset `shift`.
   */
  lemma SameTimeFromLocalReading(now: DateTime, timeOfDay: DateTime, offset: int -> int, days: int, clock: int, shift: int)
    requires now.kind == Local && timeOfDay.kind == Local
    requires 1 <= days <= DaysTo10000 - 3 && 0 <= clock < TicksPerDay
    requires now.ticks == days * TicksPerDay + clock
    requires BoundedOffset(offset)
    requires offset(now.ticks + TicksPerDay + ClockTicks(timeOfDay) - clock) == offset(now.ticks) + shift
    ensures var whole := ClockTicks(timeOfDay) / TicksPerSecond * TicksPerSecond;
            && (whole > clock ==> CalculateIntervalForSameTime(now, timeOfDay, offset).ticks == whole - clock)
            && (whole <= clock ==> CalculateIntervalForSameTime(now, timeOfDay, offset).ticks
                                   == TicksPerDay + ClockTicks(timeOfDay) - clock - shift)
    ensures ClockTicks(timeOfDay) > clock ==>
              CalculateIntervalForSameTimeToMillisecond(now, timeOfDay, offset).ticks == ClockTicks(timeOfDay) - clock
  {
    DivModUnique(now.ticks, TicksPerDay, days, clock);
    NextDayFromLocalReading(now, timeOfDay, offset, days, clock, shift);
  }

  /** 2017-10-04 12:00 to 04:15 the next day, with the same offset 16:15 later: 16:15. */
  lemma NextDaySimpleExample(now: DateTime, startTime: DateTime, offset: int -> int)
    requires IsLocalReading(now, 2017, 10, 4, 12, 0, 0)
    requires ReadsClock(startTime, 4, 15, 0, 0) && startTime.kind == Local
    requires BoundedOffset(offset)
    requires offset(now.ticks + Span(16, 15, 0).ticks) == offset(now.ticks)
    ensures CalculateIntervalForSameTimeNextDay(now, startTime, offset) == Span(16, 15, 0)
  {
    LocalReadingTicks(now, 2017, 10, 4, 12, 0, 0, 736605);
    TargetClock(startTime, 4, 15, 0, 0);
    NextDayFromLocalReading(now, startTime, offset, 736605, Span(12, 0, 0).ticks, 0);
  }

  /** The simple example with the tests' own start time. */
  lemma NextDaySimpleExampleAtStartTime(now: DateTime, offset: int -> int)
    requires IsLocalReading(now, 2017, 10, 4, 12, 0, 0)
    requires BoundedOffset(offset)
    requires offset(now.ticks + Span(16, 15, 0).ticks) == offset(now.ticks)
    ensures CalculateIntervalForSameTimeNextDay(now, StartTime(), offset) == Span(16, 15, 0)
  {
    NextDaySimpleExample(now, StartTime(), offset);
  }

  /** 2016-12-31 04:15:01 to 04:15 on 2017-01-01, across the year boundary: 23:59:59. */
  lemma NextDayNewYearsEve(now: DateTime, startTime: DateTime, offset: int -> int)
    requires IsLocalReading(now, 2016, 12, 31, 4, 15, 1)
    requires ReadsClock(startTime, 4, 15, 0, 0) && startTime.kind == Local
    requires BoundedOffset(offset)
    requires offset(now.ticks + Span(23, 59, 59).ticks) == offset(now.ticks)
    ensures CalculateIntervalForSameTimeNextDay(now, startTime, offset) == Span(23, 59, 59)
  {
    LocalReadingTicks(now, 2016, 12, 31, 4, 15, 1, 736328);
    TargetClock(startTime, 4, 15, 0, 0);
    NextDayFromLocalReading(now, startTime, offset, 736328, Span(4, 15, 1).ticks, 0);
  }

  /**
   * 2017-03-25 18:00 to 04:15 the next day when the offset grows by an hour
   * overnight (10:15 on the wall clock later): 9:15.
   */
  lemma NextDaySpringForward(now: DateTime, startTime: DateTime, offset: int -> int)
    requires IsLocalReading(now, 2017, 3, 25, 18, 0, 0)
    requires ReadsClock(startTime, 4, 15, 0, 0) && startTime.kind == Local
    requires BoundedOffset(offset)
    requires offset(now.ticks + Span(10, 15, 0).ticks) == offset(now.ticks) + TicksPerHour
    ensures CalculateIntervalForSameTimeNextDay(now, startTime, offset) == Span(9, 15, 0)
  {
    LocalReadingTicks(now, 2017, 3, 25, 18, 0, 0, 736412);
    TargetClock(startTime, 4, 15, 0, 0);
    NextDayFromLocalReading(now, startTime, offset, 736412, Span(18, 0, 0).ticks, TicksPerHour);
  }

  /**
   * 2017-10-28 18:00 to 04:15 the next day when the offset shrinks by an
   * hour overnight (10:15 on the wall clock later): 11:15.
   */
  lemma NextDayFallBack(now: DateTime, startTime: DateTime, offset: int -> int)
    requires IsLocalReading(now, 2017, 10, 28, 18, 0, 0)
    requires ReadsClock(startTime, 4, 15, 0, 0) && startTime.kind == Local
    requires BoundedOffset(offset)
    requires offset(now.ticks + Span(10, 15, 0).ticks) == offset(now.ticks) - TicksPerHour
    ensures CalculateIntervalForSameTimeNextDay(now, startTime, offset) == Span(11, 15, 0)
  {
    LocalReadingTicks(now, 2017, 10, 28, 18, 0, 0, 736629);
    TargetClock(startTime, 4, 15, 0, 0);
    NextDayFromLocalReading(now, startTime, offset, 736629, Span(18, 0, 0).ticks, -TicksPerHour);
  }

  /** 04:12 with target 04:15 the same day: three minutes, whatever the zone. */
  lemma SameTimeLaterToday(now: DateTime, startTime: DateTime, offset: int -> int)
    requires IsLocalReading(now, 2017, 10, 4, 4, 12, 0)
    requires ReadsClock(startTime, 4, 15, 0, 0) && startTime.kind == Local
    ensures CalculateIntervalForSameTime(now, startTime, offset) == Span(0, 3, 0)
  {
    LocalReadingTicks(now, 2017, 10, 4, 4, 12, 0, 736605);
    TargetClock(startTime, 4, 15, 0, 0);
    DivModUnique(now.ticks, TicksPerDay, 736605, Span(4, 12, 0).ticks);
  }

  /** 04:16 with target 04:15: the next day, 23:59 away. */
  lemma SameTimeAlreadyPassed(now: DateTime, startTime: DateTime, offset: int -> int)
    requires IsLocalReading(now, 2017, 10, 4, 4, 16, 0)
    requires ReadsClock(startTime, 4, 15, 0, 0) && startTime.kind == Local
    requires BoundedOffset(offset)
    requires offset(now.ticks + Span(23, 59, 0).ticks) == offset(now.ticks)
    ensures CalculateIntervalForSameTime(now, startTime, offset) == Span(23, 59, 0)
  {
    LocalReadingTicks(now, 2017, 10, 4, 4, 16, 0, 736605);
    TargetClock(startTime, 4, 15, 0, 0);
    SameTimeFromLocalReading(now, startTime, offset, 736605, Span(4, 16, 0).ticks, 0);
  }

  /** 2016-12-31 04:15:01 with target 04:15: already passed, so 23:59:59 into the new year. */
  lemma SameTimeNewYearsEve(now: DateTime, startTime: DateTime, offset: int -> int)
    requires IsLocalReading(now, 2016, 12, 31, 4, 15, 1)
    requires ReadsClock(startTime, 4, 15, 0, 0) && startTime.kind == Local
    requires BoundedOffset(offset)
    requires offset(now.ticks + Span(23, 59, 59).ticks) == offset(now.ticks)
    ensures CalculateIntervalForSameTime(now, startTime, offset) == Span(23, 59, 59)
  {
    LocalReadingTicks(now, 2016, 12, 31, 4, 15, 1, 736328);
    TargetClock(startTime, 4, 15, 0, 0);
    SameTimeFromLocalReading(now, startTime, offset, 736328, Span(4, 15, 1).ticks, 0);
  }

  /** Exactly 04:15:00 with target 04:15: a full 24 hours, not zero. */
  lemma SameTimeExactly(now: DateTime, startTime: DateTime, offset: int -> int)
    requires IsLocalReading(now, 2017, 10, 4, 4, 15, 0)
    requires ReadsClock(startTime, 4, 15, 0, 0) && startTime.kind == Local
    requires BoundedOffset(offset)
    requires offset(now.ticks + Span(24, 0, 0).ticks) == offset(now.ticks)
    ensures CalculateIntervalForSameTime(now, startTime, offset) == Span(24, 0, 0)
  {
    LocalReadingTicks(now, 2017, 10, 4, 4, 15, 0, 736605);
    TargetClock(startTime, 4, 15, 0, 0);
    SameTimeFromLocalReading(now, startTime, offset, 736605, Span(4, 15, 0).ticks, 0);
  }

  /**
   * 2017-03-25 18:00 with target 04:15 falls back to the next-day interval,
   * so a jump forward overnight gives 9:15.
   */
  lemma SameTimeSpringForward(now: DateTime, startTime: DateTime, offset: int -> int)
    requires IsLocalReading(now, 2017, 3, 25, 18, 0, 0)
    requires ReadsClock(startTime, 4, 15, 0, 0) && startTime.kind == Local
    requires BoundedOffset(offset)
    requires offset(now.ticks + Span(10, 15, 0).ticks) == offset(now.ticks) + TicksPerHour
    ensures CalculateIntervalForSameTime(now, startTime, offset) == Span(9, 15, 0)
  {
    LocalReadingTicks(now, 2017, 3, 25, 18, 0, 0, 736412);
    TargetClock(startTime, 4, 15, 0, 0);
    SameTimeFromLocalReading(now, startTime, offset, 736412, Span(18, 0, 0).ticks, TicksPerHour);
  }

  /**
   * 2017-10-28 18:00 with target 04:15 falls back to the next-day interval,
   * so a jump back overnight gives 11:15.
   */
  lemma SameTimeFallBack(now: DateTime, startTime: DateTime, offset: int -> int)
    requires IsLocalReading(now, 2017, 10, 28, 18, 0, 0)
    requires ReadsClock(startTime, 4, 15, 0, 0) && startTime.kind == Local
    requires BoundedOffset(offset)
    requires offset(now.ticks + Span(10, 15, 0).ticks) == offset(now.ticks) - TicksPerHour
    ensures CalculateIntervalForSameTime(now, startTime, offset) == Span(11, 15, 0)
  {
    LocalReadingTicks(now, 2017, 10, 28, 18, 0, 0, 736629);
    TargetClock(startTime, 4, 15, 0, 0);
    SameTimeFromLocalReading(now, startTime, offset, 736629, Span(18, 0, 0).ticks, -TicksPerHour);
  }

  /**
   * The milliseconds of `timeOfDay` are dropped on the same-day path: at
   * 04:15:00.000 with target 04:15:00.500 the source waits a day and half a
   * second, where the target comes round in half a second.
   */
  lemma SameTimeDropsMilliseconds(now: DateTime, timeOfDay: DateTime, offset: int -> int)
    requires IsLocalReading(now, 2017, 10, 4, 4, 15, 0)
    requires ReadsClock(timeOfDay, 4, 15, 0, 500) && timeOfDay.kind == Local
    requires BoundedOffset(offset)
    requires offset(now.ticks + TicksPerDay + 500 * TicksPerMillisecond) == offset(now.ticks)
    ensures CalculateIntervalForSameTime(now, timeOfDay, offset) == TimeSpan(TicksPerDay + 500 * TicksPerMillisecond)
    ensures CalculateIntervalForSameTimeToMillisecond(now, timeOfDay, offset) == TimeSpan(500 * TicksPerMillisecond)
  {
    LocalReadingTicks(now, 2017, 10, 4, 4, 15, 0, 736605);
    TargetClock(timeOfDay, 4, 15, 0, 500);
    SameTimeFromLocalReading(now, timeOfDay, offset, 736605, Span(4, 15, 0).ticks, 0);
  }

  /**
   * The valid spans of the tests (23:59:59, zero, 5 days 23:59:59 and
   * 23:59:59.999) convert, Local by default and Utc on request, to 0001-01-01
   * at the span's Hours, Minutes, Seconds and Milliseconds.
   */
  lemma TryConvertValidSpans(timeSpan: TimeSpan, kind: Kind)
    requires timeSpan == Span(23, 59, 59) || timeSpan == TimeSpan(0)
             || timeSpan == TimeSpan(5 * TicksPerDay + Span(23, 59, 59).ticks)
             || timeSpan == TimeSpan(Span(23, 59, 59).ticks + 999 * TicksPerMillisecond)
    ensures TryConvertToTimeOfDay(timeSpan, kind)
            == Conversion(true, NewDateTime(1, 1, 1, Hours(timeSpan), Minutes(timeSpan), Seconds(timeSpan),
                                            Milliseconds(timeSpan), kind))
    ensures TryConvertToUtcTimeOfDay(timeSpan) == TryConvertToTimeOfDay(timeSpan, Utc)
  {
    TryConvertReadsBackSpanFields(timeSpan, kind);
  }

  /** The invalid spans of the tests (-1:00, -1:23, and -5:00 plus 20 minutes) fail with the default DateTime. */
  lemma TryConvertInvalidSpans(timeSpan: TimeSpan)
    requires timeSpan == Span(-1, 0, 0) || timeSpan == Span(-1, -23, 0) || timeSpan == Span(-5, 20, 0)
    ensures TryConvertToUtcTimeOfDay(timeSpan) == Conversion(false, MinValue)
  {
  }
}
