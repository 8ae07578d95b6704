/**
 * The extension methods of TimeExtensions: the interval from a point in time
 * to the next occurrence of a time of day, and the conversion of a TimeSpan
 * into a time of day on 0001-01-01. All of them are pure; the host time zone
 * that ToUniversalTime consults is the parameter `offset`.
 */
module TimeExtensions {
  import opened Calendar
  import opened DateTimes

  // ---------------------------------------------------------------------------
  // CalculateIntervalForSameTimeNextDay

  /**
   * The instant CalculateIntervalForSameTimeNextDay aims at, stated without the
   * calendar: the day after `now`'s day, at `timeOfDay`'s clock reading to the
   * millisecond, with `timeOfDay`'s kind.
   */
  function TomorrowAt(now: DateTime, timeOfDay: DateTime): DateTime
    requires now.ticks <= MaxTicks - TicksPerDay
  {
    DateTime((now.ticks / TicksPerDay + 1) * TicksPerDay + ClockTicks(timeOfDay), timeOfDay.kind)
  }

  /**
   * `now.CalculateIntervalForSameTimeNextDay(timeOfDay)`: take tomorrow's
   * year, month and day, attach the hour, minute, second, millisecond and kind
   * of `timeOfDay`, convert that and `now` to UTC and subtract. AddDays(1.0)
   * throws past 9999-12-31, hence the requires.
   */
  function CalculateIntervalForSameTimeNextDay(now: DateTime, timeOfDay: DateTime, offset: int -> int): (r: TimeSpan)
    requires now.ticks <= MaxTicks - TicksPerDay
    ensures r == Subtract(ToUniversalTime(TomorrowAt(now, timeOfDay), offset), ToUniversalTime(now, offset))
  {
    var tomorrow := Add(now, TimeSpan(TicksPerDay));
    var target := NewDateTime(Year(tomorrow), Month(tomorrow), Day(tomorrow),
                              Hour(timeOfDay), Minute(timeOfDay), Second(timeOfDay), Millisecond(timeOfDay),
                              timeOfDay.kind);
    NextDayTargetTicks(now, tomorrow, timeOfDay, target);
    Subtract(ToUniversalTime(target, offset), ToUniversalTime(now, offset))
  }

  /** The DateTime built from tomorrow's date and the clock fields of `timeOfDay` is TomorrowAt. */
  lemma NextDayTargetTicks(now: DateTime, tomorrow: DateTime, timeOfDay: DateTime, target: DateTime)
    requires now.ticks <= MaxTicks - TicksPerDay
    requires tomorrow.ticks == now.ticks + TicksPerDay
    requires DatePart(target) == DatePart(tomorrow)
    requires Hour(target) == Hour(timeOfDay) && Minute(target) == Minute(timeOfDay)
    requires Second(target) == Second(timeOfDay) && Millisecond(target) == Millisecond(timeOfDay)
    requires target.ticks % TicksPerMillisecond == 0 && target.kind == timeOfDay.kind
    ensures target == TomorrowAt(now, timeOfDay)
  {
    var days := tomorrow.ticks / TicksPerDay;
    var date := DatePart(tomorrow);
    assert target.ticks / TicksPerDay == days by {
      assert DayNumber(date.year, date.month, date.day) == days;
      assert DayNumber(date.year, date.month, date.day) == target.ticks / TicksPerDay;
    }
    assert days == now.ticks / TicksPerDay + 1;
    ClockTicksOfFields(target);
    ClockTicksOfFields(timeOfDay);
  }

  /**
   * Only the hour, minute, second, millisecond and kind of `timeOfDay` matter:
   * its date and its ticks below a millisecond are ignored.
   */
  lemma NextDayIgnoresDateOfTimeOfDay(now: DateTime, a: DateTime, b: DateTime, offset: int -> int)
    requires now.ticks <= MaxTicks - TicksPerDay
    requires Hour(a) == Hour(b) && Minute(a) == Minute(b) && Second(a) == Second(b)
    requires Millisecond(a) == Millisecond(b) && a.kind == b.kind
    ensures CalculateIntervalForSameTimeNextDay(now, a, offset) == CalculateIntervalForSameTimeNextDay(now, b, offset)
  {
    ClockTicksOfFields(a);
    ClockTicksOfFields(b);
    assert TomorrowAt(now, a) == TomorrowAt(now, b);
  }

  /**
   * Away from the ends of the range the interval is the wall-clock distance
   * from `now` to tomorrow's occurrence, less the growth of the UTC offset
   * between the two readings: a one-hour daylight-saving jump forward makes it
   * an hour shorter, a jump back an hour longer.
   */
  lemma NextDayAcrossOffsetChange(now: DateTime, timeOfDay: DateTime, offset: int -> int)
    requires now.ticks <= MaxTicks - TicksPerDay
    requires Unclamped(now, offset) && Unclamped(TomorrowAt(now, timeOfDay), offset)
    ensures CalculateIntervalForSameTimeNextDay(now, timeOfDay, offset).ticks
            == TicksPerDay + ClockTicks(timeOfDay) - TimeOfDayTicks(now)
               - (UtcShift(timeOfDay.kind, TomorrowAt(now, timeOfDay).ticks, offset)
                  - UtcShift(now.kind, now.ticks, offset))
  {
  }

  /** The offset ToUniversalTime applies is the same at `now` and at tomorrow's target. */
  predicate SteadyOffset(now: DateTime, timeOfDay: DateTime, offset: int -> int)
    requires now.ticks <= MaxTicks - TicksPerDay
  {
    && Unclamped(now, offset) && Unclamped(TomorrowAt(now, timeOfDay), offset)
    && UtcShift(timeOfDay.kind, TomorrowAt(now, timeOfDay).ticks, offset) == UtcShift(now.kind, now.ticks, offset)
  }

  /**
   * With no offset change (both Utc, or a zone without a switch that night)
   * the interval is one day plus the difference of the two times of day, so
   * it lies strictly between zero and two days.
   */
  lemma NextDayWithSteadyOffset(now: DateTime, timeOfDay: DateTime, offset: int -> int)
    requires now.ticks <= MaxTicks - TicksPerDay
    requires SteadyOffset(now, timeOfDay, offset)
    ensures CalculateIntervalForSameTimeNextDay(now, timeOfDay, offset).ticks
            == TicksPerDay + ClockTicks(timeOfDay) - TimeOfDayTicks(now)
    ensures 0 < CalculateIntervalForSameTimeNextDay(now, timeOfDay, offset).ticks < 2 * TicksPerDay
  {
    NextDayAcrossOffsetChange(now, timeOfDay, offset);
    ClockTicksInDay(timeOfDay);
    ClockTicksInDay(now);
  }

  // ---------------------------------------------------------------------------
  // CalculateIntervalForSameTime

  /**
   * The `timeOfToday` of CalculateIntervalForSameTime: `now`'s date at
   * `timeOfDay`'s hour, minute and second (no milliseconds), kind Unspecified.
   */
  function TodayAt(now: DateTime, timeOfDay: DateTime): DateTime {
    DateTime(now.ticks / TicksPerDay * TicksPerDay + ClockTicks(timeOfDay) / TicksPerSecond * TicksPerSecond,
             Unspecified)
  }

  /**
   * `now.CalculateIntervalForSameTime(timeOfDay)`: today's occurrence of the
   * hour, minute and second of `timeOfDay` when that is strictly later than
   * `now` (compared by ticks, no time-zone conversion), otherwise the next-day
   * interval. Only the next-day path calls AddDays, so only it needs room.
   */
  function CalculateIntervalForSameTime(now: DateTime, timeOfDay: DateTime, offset: int -> int): (r: TimeSpan)
    requires TodayAt(now, timeOfDay).ticks > now.ticks || now.ticks <= MaxTicks - TicksPerDay
    ensures TodayAt(now, timeOfDay).ticks > now.ticks ==>
              r == Subtract(TodayAt(now, timeOfDay), now) && 0 < r.ticks < TicksPerDay
    ensures TodayAt(now, timeOfDay).ticks <= now.ticks ==>
              r == CalculateIntervalForSameTimeNextDay(now, timeOfDay, offset)
  {
    var timeOfToday := NewDateTime(Year(now), Month(now), Day(now),
                                   Hour(timeOfDay), Minute(timeOfDay), Second(timeOfDay), 0, Unspecified);
    SameDayTicks(now, timeOfDay, timeOfToday);
    if timeOfToday.ticks > now.ticks then Subtract(timeOfToday, now)
    else CalculateIntervalForSameTimeNextDay(now, timeOfDay, offset)
  }

  /** The DateTime built from `now`'s date and the hour, minute and second of `timeOfDay` is TodayAt. */
  lemma SameDayTicks(now: DateTime, timeOfDay: DateTime, timeOfToday: DateTime)
    requires DatePart(timeOfToday) == DatePart(now)
    requires Hour(timeOfToday) == Hour(timeOfDay) && Minute(timeOfToday) == Minute(timeOfDay)
    requires Second(timeOfToday) == Second(timeOfDay) && Millisecond(timeOfToday) == 0
    requires timeOfToday.ticks % TicksPerMillisecond == 0 && timeOfToday.kind == Unspecified
    ensures timeOfToday == TodayAt(now, timeOfDay)
  {
    SameDateSameDay(timeOfToday, now);
    ClockTicksOfFields(timeOfToday);
    WholeSecondsOfClock(timeOfDay);
  }

  /**
   * When `now` is exactly at `timeOfDay`'s clock reading (milliseconds
   * included) and the offset does not change, the result is a full 24 hours,
   * never zero: today's whole-second occurrence is not later than `now`, so
   * the next-day path is taken.
   */
  lemma SameTimeExactMatchIsOneDay(now: DateTime, timeOfDay: DateTime, offset: int -> int)
    requires now.ticks <= MaxTicks - TicksPerDay
    requires TimeOfDayTicks(now) == ClockTicks(timeOfDay)
    requires SteadyOffset(now, timeOfDay, offset)
    ensures CalculateIntervalForSameTime(now, timeOfDay, offset).ticks == TicksPerDay
  {
    ClockTicksOfFields(timeOfDay);
    WholeSecondsOfClock(timeOfDay);
    NextDayWithSteadyOffset(now, timeOfDay, offset);
  }

  /**
   * With no offset change the interval is always positive; it exceeds one day
   * by less than a second, and only when `timeOfDay` has milliseconds.
   */
  lemma SameTimeWithSteadyOffset(now: DateTime, timeOfDay: DateTime, offset: int -> int)
    requires TodayAt(now, timeOfDay).ticks > now.ticks || now.ticks <= MaxTicks - TicksPerDay
    requires TodayAt(now, timeOfDay).ticks <= now.ticks ==> SteadyOffset(now, timeOfDay, offset)
    ensures 0 < CalculateIntervalForSameTime(now, timeOfDay, offset).ticks < TicksPerDay + TicksPerSecond
    ensures Millisecond(timeOfDay) == 0 ==> CalculateIntervalForSameTime(now, timeOfDay, offset).ticks <= TicksPerDay
  {
    ClockTicksOfFields(timeOfDay);
    if TodayAt(now, timeOfDay).ticks <= now.ticks {
      NextDayWithSteadyOffset(now, timeOfDay, offset);
    }
  }

  /**
   * The same-day path does not consult the time zone at all: its result is the
   * same whatever the offsets, even if a daylight-saving switch lies between
   * `now` and today's occurrence.
   */
  lemma SameDayPathIgnoresOffset(now: DateTime, timeOfDay: DateTime, offset1: int -> int, offset2: int -> int)
    requires TodayAt(now, timeOfDay).ticks > now.ticks
    ensures CalculateIntervalForSameTime(now, timeOfDay, offset1) == CalculateIntervalForSameTime(now, timeOfDay, offset2)
  {
  }

  // ---------------------------------------------------------------------------
  // Same-time interval to the millisecond (the evidently intended behaviour)

  /** Today's occurrence of `timeOfDay`'s full clock reading, milliseconds included. */
  function TodayAtToMillisecond(now: DateTime, timeOfDay: DateTime): DateTime {
    DateTime(now.ticks / TicksPerDay * TicksPerDay + ClockTicks(timeOfDay), Unspecified)
  }

  /**
   * CalculateIntervalForSameTime with the millisecond of `timeOfDay` kept in
   * today's occurrence, as it is in the next-day computation. With a steady
   * offset the result is the distance to the next instant, strictly after
   * `now`, whose clock reads `timeOfDay`: never zero and never over a day.
   */
  function CalculateIntervalForSameTimeToMillisecond(now: DateTime, timeOfDay: DateTime, offset: int -> int): (r: TimeSpan)
    requires TodayAtToMillisecond(now, timeOfDay).ticks > now.ticks || now.ticks <= MaxTicks - TicksPerDay
    ensures TodayAtToMillisecond(now, timeOfDay).ticks <= now.ticks && SteadyOffset(now, timeOfDay, offset) ==>
              r.ticks == TicksPerDay + ClockTicks(timeOfDay) - TimeOfDayTicks(now)
    ensures TodayAtToMillisecond(now, timeOfDay).ticks > now.ticks ==>
              r.ticks == ClockTicks(timeOfDay) - TimeOfDayTicks(now)
    ensures TodayAtToMillisecond(now, timeOfDay).ticks > now.ticks || SteadyOffset(now, timeOfDay, offset) ==>
              0 < r.ticks <= TicksPerDay
  {
    var timeOfToday := NewDateTime(Year(now), Month(now), Day(now),
                                   Hour(timeOfDay), Minute(timeOfDay), Second(timeOfDay), Millisecond(timeOfDay),
                                   Unspecified);
    SameDayTicksToMillisecond(now, timeOfDay, timeOfToday);
    if timeOfToday.ticks > now.ticks then Subtract(timeOfToday, now)
    else
      assert TodayAtToMillisecond(now, timeOfDay).ticks <= now.ticks;
      NextDayWhenSteady(now, timeOfDay, offset);
      CalculateIntervalForSameTimeNextDay(now, timeOfDay, offset)
  }

  lemma NextDayWhenSteady(now: DateTime, timeOfDay: DateTime, offset: int -> int)
    requires now.ticks <= MaxTicks - TicksPerDay
    requires TodayAtToMillisecond(now, timeOfDay).ticks <= now.ticks
    ensures SteadyOffset(now, timeOfDay, offset) ==>
              CalculateIntervalForSameTimeNextDay(now, timeOfDay, offset).ticks
              == TicksPerDay + ClockTicks(timeOfDay) - TimeOfDayTicks(now) <= TicksPerDay
  {
    if SteadyOffset(now, timeOfDay, offset) {
      NextDayWithSteadyOffset(now, timeOfDay, offset);
    }
  }

  /** The DateTime built from `now`'s date and every clock field of `timeOfDay` is TodayAtToMillisecond. */
  lemma SameDayTicksToMillisecond(now: DateTime, timeOfDay: DateTime, timeOfToday: DateTime)
    requires DatePart(timeOfToday) == DatePart(now)
    requires Hour(timeOfToday) == Hour(timeOfDay) && Minute(timeOfToday) == Minute(timeOfDay)
    requires Second(timeOfToday) == Second(timeOfDay) && Millisecond(timeOfToday) == Millisecond(timeOfDay)
    requires timeOfToday.ticks % TicksPerMillisecond == 0 && timeOfToday.kind == Unspecified
    ensures timeOfToday == TodayAtToMillisecond(now, timeOfDay)
  {
    SameDateSameDay(timeOfToday, now);
    ClockTicksOfFields(timeOfToday);
    ClockTicksOfFields(timeOfDay);
  }

  // ---------------------------------------------------------------------------
  // TryConvertToTimeOfDay and TryConvertToUtcTimeOfDay

  /** The boolean result and the `out` DateTime of a TryConvert method. */
  datatype Conversion = Conversion(success: bool, dateTime: DateTime)

  /**
   * `timeSpan.TryConvertToTimeOfDay(out dateTime, kind)`: fails softly, with
   * `default(DateTime)`, when Hours >= 24 or the span is negative; otherwise
   * 0001-01-01 at the span's Hours, Minutes, Seconds and Milliseconds, with
   * the requested kind. Since Hours never reaches 24, exactly the negative
   * spans fail, and a success is the span modulo one day, cut to whole
   * milliseconds.
   */
  function TryConvertToTimeOfDay(timeSpan: TimeSpan, kind: Kind := Local): (r: Conversion)
    ensures r.success <==> timeSpan.ticks >= 0
    ensures !r.success ==> r.dateTime == MinValue
    ensures r.success ==> r.dateTime == DateTime(timeSpan.ticks % TicksPerDay / TicksPerMillisecond * TicksPerMillisecond, kind)
  {
    HoursRange(timeSpan);
    if Hours(timeSpan) >= 24 || timeSpan.ticks < 0 then Conversion(false, MinValue)
    else
      NonNegativeSpanFields(timeSpan);
      var dateTime := NewDateTime(1, 1, 1, Hours(timeSpan), Minutes(timeSpan), Seconds(timeSpan),
                                  Milliseconds(timeSpan), kind);
      TimeOfDayTicksOfSpan(timeSpan, dateTime);
      Conversion(true, dateTime)
  }

  /** A DateTime on 0001-01-01 with the clock fields of a non-negative span holds that span modulo a day, to the millisecond. */
  lemma TimeOfDayTicksOfSpan(timeSpan: TimeSpan, dateTime: DateTime)
    requires timeSpan.ticks >= 0
    requires DatePart(dateTime) == Date(1, 1, 1) && dateTime.ticks % TicksPerMillisecond == 0
    requires Hour(dateTime) == Hours(timeSpan) && Minute(dateTime) == Minutes(timeSpan)
    requires Second(dateTime) == Seconds(timeSpan) && Millisecond(dateTime) == Milliseconds(timeSpan)
    ensures dateTime.ticks == timeSpan.ticks % TicksPerDay / TicksPerMillisecond * TicksPerMillisecond
  {
    assert dateTime.ticks / TicksPerDay == 0 by {
      assert DayNumber(1, 1, 1) == dateTime.ticks / TicksPerDay;
    }
    ClockTicksOfFields(dateTime);
    NonNegativeSpanFields(timeSpan);
    ClockFieldsOf(timeSpan.ticks);
  }

  /**
   * On success the result is on 0001-01-01 and its hour, minute, second and
   * millisecond are the span's Hours, Minutes, Seconds and Milliseconds.
   */
  lemma TryConvertReadsBackSpanFields(timeSpan: TimeSpan, kind: Kind)
    requires timeSpan.ticks >= 0
    ensures TryConvertToTimeOfDay(timeSpan, kind)
            == Conversion(true, NewDateTime(1, 1, 1, Hours(timeSpan), Minutes(timeSpan), Seconds(timeSpan),
                                            Milliseconds(timeSpan), kind))
  {
    NonNegativeSpanFields(timeSpan);
  }

  /** The days component is ignored: adding whole days to a non-negative span converts to the same time of day. */
  lemma TryConvertIgnoresDays(timeSpan: TimeSpan, days: nat, kind: Kind)
    requires timeSpan.ticks >= 0
    ensures TryConvertToTimeOfDay(TimeSpan(timeSpan.ticks + days * TicksPerDay), kind)
            == TryConvertToTimeOfDay(timeSpan, kind)
  {
    var later := TimeSpan(timeSpan.ticks + days * TicksPerDay);
    DivModUnique(later.ticks, TicksPerDay, timeSpan.ticks / TicksPerDay + days, timeSpan.ticks % TicksPerDay);
    var a, b := TryConvertToTimeOfDay(later, kind), TryConvertToTimeOfDay(timeSpan, kind);
    assert a.success && b.success && a.dateTime == b.dateTime;
  }

  /**
   * `timeSpan.TryConvertToUtcTimeOfDay(out dateTime)`: TryConvertToTimeOfDay
   * with kind Utc, so the same success flag and a Utc time of day.
   */
  function TryConvertToUtcTimeOfDay(timeSpan: TimeSpan): (r: Conversion)
    ensures r.success <==> timeSpan.ticks >= 0
    ensures !r.success ==> r.dateTime == MinValue
    ensures r.success ==> r.dateTime == DateTime(timeSpan.ticks % TicksPerDay / TicksPerMillisecond * TicksPerMillisecond, Utc)
  {
    TryConvertToTimeOfDay(timeSpan, Utc)
  }
}
