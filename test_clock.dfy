/**
 * TestClock: a clock for tests whose time is set at construction and moved
 * on only by AdvanceTime. InitialTime is read-only; the current time is the
 * one mutable field. The host's DateTime.UtcNow, read once by the default
 * constructor, is a parameter.
 */
module Clocks {
  import opened DateTimes

  class TestClock {
    /** The time this clock was created with. A `const`: nothing can change it afterwards. */
    const InitialTime: DateTime
    /** The time GetTime returns. */
    var currentTime: DateTime

    /** `new TestClock()`: both times are the same single reading `utcNow` of DateTime.UtcNow, kind Utc. */
    constructor Default(utcNow: Ticks)
      ensures InitialTime == DateTime(utcNow, Utc) && currentTime == InitialTime
    {
      var now := DateTime(utcNow, Utc);
      InitialTime := now;
      currentTime := now;
    }

    /** `new TestClock(initialTime)`: both times are `initialTime`, kind included. */
    constructor (initialTime: DateTime)
      ensures InitialTime == initialTime && currentTime == initialTime
    {
      InitialTime := initialTime;
      currentTime := initialTime;
    }

    /** The current time; a plain read that changes nothing. */
    method GetTime() returns (t: DateTime)
      ensures t == currentTime
    {
      t := currentTime;
    }

    /**
     * Moves the current time on by `timeSpan` (which may be negative), keeping
     * its kind, and returns this same clock so that calls can be chained.
     * DateTime.Add throws when the result leaves the representable range.
     */
    method AdvanceTime(timeSpan: TimeSpan) returns (clock: TestClock)
      requires 0 <= currentTime.ticks + timeSpan.ticks <= MaxTicks
      modifies this
      ensures clock == this
      ensures currentTime == Add(old(currentTime), timeSpan)
      ensures currentTime.kind == old(currentTime).kind
      ensures Subtract(currentTime, old(currentTime)) == timeSpan
    {
      currentTime := Add(currentTime, timeSpan);
      clock := this;
    }
  }

  /** Two reads with nothing in between return the same time. */
  method ReadTwice(clock: TestClock) returns (first: DateTime, second: DateTime)
    ensures first == second == clock.currentTime
  {
    first := clock.GetTime();
    second := clock.GetTime();
  }

  /** A clock created with a value reports that value, kind included, as InitialTime and as its time. */
  method CreateWithInitialTime(initialTime: DateTime) returns (initial: DateTime, now: DateTime)
    ensures initial == initialTime && now == initialTime
  {
    var clock := new TestClock(initialTime);
    initial := clock.InitialTime;
    now := clock.GetTime();
  }

  /** `new TestClock().AdvanceTime(timeSpan).GetTime()` is the initial UTC time plus `timeSpan`. */
  method AdvanceNewClock(utcNow: Ticks, timeSpan: TimeSpan) returns (initial: DateTime, now: DateTime)
    requires 0 <= utcNow + timeSpan.ticks <= MaxTicks
    ensures initial == DateTime(utcNow, Utc)
    ensures now == Add(initial, timeSpan) && now.kind == Utc
  {
    var clock := new TestClock.Default(utcNow);
    var advanced := clock.AdvanceTime(timeSpan);
    now := advanced.GetTime();
    initial := clock.InitialTime;
  }

  /**
   * Chained advances act on one clock and add up: advancing by `a` and then
   * by `b` is advancing by `a + b`. (InitialTime, a `const`, cannot change.)
   */
  method AdvanceTwice(clock: TestClock, a: TimeSpan, b: TimeSpan) returns (now: DateTime)
    requires 0 <= clock.currentTime.ticks + a.ticks <= MaxTicks
    requires 0 <= clock.currentTime.ticks + a.ticks + b.ticks <= MaxTicks
    modifies clock
    ensures now == clock.currentTime == Add(old(clock.currentTime), TimeSpan(a.ticks + b.ticks))
  {
    var same := clock.AdvanceTime(a);
    var again := same.AdvanceTime(b);
    now := again.GetTime();
  }
}
