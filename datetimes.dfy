/**
 * The .NET value types the helpers work on. A DateTime is a tick count
 * (100 ns units since 0001-01-01 00:00) in 0 .. MaxTicks plus a Kind; a
 * TimeSpan is a signed tick count. Equality, comparison and subtraction of
 * DateTime values use the ticks only. The host's time zone is a parameter:
 * `offset(t)` is the UTC offset, in ticks, of the local wall-clock reading t.
 */
module DateTimes {
  import opened Calendar

  const TicksPerMillisecond := 10_000
  const TicksPerSecond := 10_000_000
  const TicksPerMinute := 600_000_000
  const TicksPerHour := 36_000_000_000
  const TicksPerDay := 864_000_000_000
  /** 9999-12-31 23:59:59.9999999, that is DaysTo10000 * TicksPerDay - 1. */
  const MaxTicks := 3_155_378_975_999_999_999
  /** The largest UTC offset a .NET time zone may have, 14 hours either way. */
  const MaxOffset := 14 * TicksPerHour

  type Ticks = t: int | 0 <= t <= MaxTicks

  datatype Kind = Unspecified | Utc | Local

  datatype DateTime = DateTime(ticks: Ticks, kind: Kind)

  /** `default(DateTime)`: 0001-01-01 00:00, kind Unspecified. */
  const MinValue := DateTime(0, Unspecified)

  datatype TimeSpan = TimeSpan(ticks: int)

  // ---------------------------------------------------------------------------
  // Components of a DateTime

  function Hour(t: DateTime): int { t.ticks / TicksPerHour % 24 }
  function Minute(t: DateTime): int { t.ticks / TicksPerMinute % 60 }
  function Second(t: DateTime): int { t.ticks / TicksPerSecond % 60 }
  function Millisecond(t: DateTime): int { t.ticks / TicksPerMillisecond % 1000 }

  /** Year, Month and Day together: the calendar date of the day the ticks fall on. */
  function DatePart(t: DateTime): Date {
    assert DaysTo10000 * TicksPerDay == MaxTicks + 1;
    CivilFromDays(t.ticks / TicksPerDay)
  }

  function Year(t: DateTime): int { DatePart(t).year }
  function Month(t: DateTime): int { DatePart(t).month }
  function Day(t: DateTime): int { DatePart(t).day }

  /** DateTime.TimeOfDay, in ticks. */
  function TimeOfDayTicks(t: DateTime): int { t.ticks % TicksPerDay }

  /** The time of day to whole milliseconds: the part Hour, Minute, Second and Millisecond describe. */
  function ClockTicks(t: DateTime): int {
    t.ticks % TicksPerDay / TicksPerMillisecond * TicksPerMillisecond
  }

  /**
   * Mixed-radix digits: a tick count built from a day count and in-range
   * clock fields gives exactly those fields back.
   */
  lemma TimeFieldsOfParts(x: int, days: int, h: int, m: int, s: int, ms: int, sub: int)
    requires days >= 0 && 0 <= h < 24 && 0 <= m < 60 && 0 <= s < 60 && 0 <= ms < 1000
    requires 0 <= sub < TicksPerMillisecond
    requires x == days * TicksPerDay + h * TicksPerHour + m * TicksPerMinute + s * TicksPerSecond
                  + ms * TicksPerMillisecond + sub
    ensures x / TicksPerDay == days
    ensures x / TicksPerHour % 24 == h && x / TicksPerMinute % 60 == m
    ensures x / TicksPerSecond % 60 == s && x / TicksPerMillisecond % 1000 == ms
    ensures x % TicksPerMillisecond == sub
  {
    assert x / TicksPerHour == days * 24 + h;
    assert x / TicksPerMinute == (days * 24 + h) * 60 + m;
    assert x / TicksPerSecond == ((days * 24 + h) * 60 + m) * 60 + s;
    assert x / TicksPerMillisecond == (((days * 24 + h) * 60 + m) * 60 + s) * 1000 + ms;
  }

  /** Every tick count that is not negative is its day count, its clock fields and the ticks below a millisecond. */
  lemma ClockFieldsOf(x: int)
    requires x >= 0
    ensures x == x / TicksPerDay * TicksPerDay + x / TicksPerHour % 24 * TicksPerHour
                 + x / TicksPerMinute % 60 * TicksPerMinute + x / TicksPerSecond % 60 * TicksPerSecond
                 + x / TicksPerMillisecond % 1000 * TicksPerMillisecond + x % TicksPerMillisecond
    ensures x % TicksPerDay / TicksPerMillisecond * TicksPerMillisecond
            == x / TicksPerHour % 24 * TicksPerHour + x / TicksPerMinute % 60 * TicksPerMinute
               + x / TicksPerSecond % 60 * TicksPerSecond + x / TicksPerMillisecond % 1000 * TicksPerMillisecond
  {
    var r := x % TicksPerDay;
    var h := r / TicksPerHour;
    var r1 := r % TicksPerHour;
    var m := r1 / TicksPerMinute;
    var r2 := r1 % TicksPerMinute;
    var s := r2 / TicksPerSecond;
    var r3 := r2 % TicksPerSecond;
    var ms := r3 / TicksPerMillisecond;
    var sub := r3 % TicksPerMillisecond;
    TimeFieldsOfParts(x, x / TicksPerDay, h, m, s, ms, sub);
    TimeFieldsOfParts(r, 0, h, m, s, ms, sub);
  }

  /** A clock reading lies within one day. */
  lemma ClockTicksInDay(t: DateTime)
    ensures 0 <= ClockTicks(t) <= TimeOfDayTicks(t) < TicksPerDay
  {
  }

  /** The clock reading of a DateTime is what its Hour, Minute, Second and Millisecond add up to. */
  lemma ClockTicksOfFields(t: DateTime)
    ensures t.ticks == t.ticks / TicksPerDay * TicksPerDay + ClockTicks(t) + t.ticks % TicksPerMillisecond
    ensures ClockTicks(t) == Hour(t) * TicksPerHour + Minute(t) * TicksPerMinute
                             + Second(t) * TicksPerSecond + Millisecond(t) * TicksPerMillisecond
  {
    ClockFieldsOf(t.ticks);
  }

  /** The whole seconds of a clock reading are what its Hour, Minute and Second add up to. */
  lemma WholeSecondsOfClock(t: DateTime)
    ensures ClockTicks(t) / TicksPerSecond * TicksPerSecond
            == Hour(t) * TicksPerHour + Minute(t) * TicksPerMinute + Second(t) * TicksPerSecond
  {
    ClockTicksOfFields(t);
    DivModUnique(ClockTicks(t), TicksPerSecond, Hour(t) * 3600 + Minute(t) * 60 + Second(t),
                 Millisecond(t) * TicksPerMillisecond);
  }

  /** Two readings with the same calendar date lie on the same day. */
  lemma SameDateSameDay(a: DateTime, b: DateTime)
    requires DatePart(a) == DatePart(b)
    ensures a.ticks / TicksPerDay == b.ticks / TicksPerDay
  {
    var date := DatePart(a);
    assert DayNumber(date.year, date.month, date.day) == a.ticks / TicksPerDay;
    assert DayNumber(date.year, date.month, date.day) == b.ticks / TicksPerDay;
  }

  /**
   * `new DateTime(year, month, day, hour, minute, second, millisecond, kind)`.
   * The requires are the arguments the constructor accepts without throwing;
   * every component of the result reads back as the argument it was built from.
   */
  function NewDateTime(year: int, month: int, day: int, hour: int, minute: int, second: int,
                       millisecond: int, kind: Kind): (t: DateTime)
    requires ValidDate(year, month, day)
    requires 0 <= hour < 24 && 0 <= minute < 60 && 0 <= second < 60 && 0 <= millisecond < 1000
    ensures DatePart(t) == Date(year, month, day)
    ensures Hour(t) == hour && Minute(t) == minute && Second(t) == second
    ensures Millisecond(t) == millisecond && t.kind == kind
    ensures t.ticks % TicksPerMillisecond == 0
  {
    var days := DayNumber(year, month, day);
    var x := days * TicksPerDay + hour * TicksPerHour + minute * TicksPerMinute
             + second * TicksPerSecond + millisecond * TicksPerMillisecond;
    TimeFieldsOfParts(x, days, hour, minute, second, millisecond, 0);
    DayNumberRoundTrip(year, month, day);
    DateTime(x, kind)
  }

  // ---------------------------------------------------------------------------
  // Arithmetic

  /**
   * DateTime.Add(TimeSpan) (and AddDays with a whole number of days): the
   * kind is kept; leaving the range throws in the source and is excluded here.
   */
  function Add(t: DateTime, span: TimeSpan): (r: DateTime)
    requires 0 <= t.ticks + span.ticks <= MaxTicks
    ensures r.kind == t.kind && r.ticks - t.ticks == span.ticks
  {
    DateTime(t.ticks + span.ticks, t.kind)
  }

  /** `a - b` on two DateTime values: the difference of their ticks, whatever their kinds. */
  function Subtract(a: DateTime, b: DateTime): (d: TimeSpan)
    ensures -MaxTicks <= d.ticks <= MaxTicks
    ensures 0 <= b.ticks + d.ticks <= MaxTicks
  {
    TimeSpan(a.ticks - b.ticks)
  }

  lemma AddSubtractRoundTrip(a: DateTime, b: DateTime)
    requires a.kind == b.kind
    ensures Add(b, Subtract(a, b)) == a
  {
  }

  // ---------------------------------------------------------------------------
  // Conversion to UTC

  /** The amount ToUniversalTime subtracts from a reading of the given kind. */
  function UtcShift(kind: Kind, ticks: int, offset: int -> int): int {
    if kind == Utc then 0 else offset(ticks)
  }

  /** No clamping happens when `t` is converted to UTC. */
  predicate Unclamped(t: DateTime, offset: int -> int) {
    0 <= t.ticks - UtcShift(t.kind, t.ticks, offset) <= MaxTicks
  }

  /** The offsets a .NET time zone can have. */
  ghost predicate BoundedOffset(offset: int -> int) {
    forall t :: -MaxOffset <= offset(t) <= MaxOffset
  }

  /**
   * DateTime.ToUniversalTime: a Utc value is returned as it is; a Local or
   * Unspecified one is read as local time, the zone's offset is subtracted
   * and the result, of kind Utc, is clamped to MinValue .. MaxValue.
   */
  function ToUniversalTime(t: DateTime, offset: int -> int): (u: DateTime)
    ensures u.kind == Utc
    ensures t.kind == Utc ==> u == t
    ensures Unclamped(t, offset) ==> u.ticks == t.ticks - UtcShift(t.kind, t.ticks, offset)
    ensures t.kind != Utc && t.ticks - offset(t.ticks) < 0 ==> u.ticks == 0
    ensures t.kind != Utc && t.ticks - offset(t.ticks) > MaxTicks ==> u.ticks == MaxTicks
  {
    if t.kind == Utc then t
    else
      var u := t.ticks - offset(t.ticks);
      DateTime(if u < 0 then 0 else if u > MaxTicks then MaxTicks else u, Utc)
  }

  /** With a zone's offset bounded, readings at least 14 hours from both ends of the range are never clamped. */
  lemma UnclampedInMidRange(t: DateTime, offset: int -> int)
    requires BoundedOffset(offset)
    requires MaxOffset <= t.ticks <= MaxTicks - MaxOffset
    ensures Unclamped(t, offset)
  {
    var o := offset(t.ticks);
  }

  // ---------------------------------------------------------------------------
  // Components of a TimeSpan (C# integer division truncates toward zero)

  /**
   * C#'s `a / b` for b > 0: the quotient rounded toward zero, so `q * b` is
   * the multiple of `b` next to `a` on the side of zero.
   */
  function TruncDiv(a: int, b: int): (q: int)
    requires b > 0
    ensures a >= 0 ==> q * b <= a < q * b + b
    ensures a <= 0 ==> q * b - b < a <= q * b
  {
    if a >= 0 then a / b else -((-a) / b)
  }

  /**
   * C#'s `a % b` for b > 0: the remainder takes the sign of `a`, and with
   * TruncDiv it rebuilds `a`. Together with the range and sign clauses this
   * pins both down as division rounding toward zero.
   */
  function TruncRem(a: int, b: int): (r: int)
    requires b > 0
    ensures -b < r < b
    ensures a >= 0 ==> 0 <= r
    ensures a <= 0 ==> r <= 0
    ensures TruncDiv(a, b) * b + r == a
  {
    if a >= 0 then a % b else -((-a) % b)
  }

  function Days(s: TimeSpan): int { TruncDiv(s.ticks, TicksPerDay) }
  function Hours(s: TimeSpan): int { TruncRem(TruncDiv(s.ticks, TicksPerHour), 24) }
  function Minutes(s: TimeSpan): int { TruncRem(TruncDiv(s.ticks, TicksPerMinute), 60) }
  function Seconds(s: TimeSpan): int { TruncRem(TruncDiv(s.ticks, TicksPerSecond), 60) }
  function Milliseconds(s: TimeSpan): int { TruncRem(TruncDiv(s.ticks, TicksPerMillisecond), 1000) }

  /** TimeSpan.Hours lies strictly between -24 and 24, and is 0 .. 23 for a span that is not negative. */
  lemma HoursRange(s: TimeSpan)
    ensures -24 < Hours(s) < 24
    ensures s.ticks >= 0 ==> 0 <= Hours(s)
  {
  }

  /** On a span that is not negative the components are the Euclidean digits of its ticks. */
  lemma NonNegativeSpanFields(s: TimeSpan)
    requires s.ticks >= 0
    ensures Days(s) == s.ticks / TicksPerDay
    ensures Hours(s) == s.ticks / TicksPerHour % 24 && Minutes(s) == s.ticks / TicksPerMinute % 60
    ensures Seconds(s) == s.ticks / TicksPerSecond % 60
    ensures Milliseconds(s) == s.ticks / TicksPerMillisecond % 1000
  {
  }
}
