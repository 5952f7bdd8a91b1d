/** Dates in the Gregorian calendar, perhaps only a year, a month or a part of one, and the ticks they stand for
  * (time/expr.rs).
  */
module Dates {
  import opened Wrappers
  import opened TimeRange
  import opened Civil
  import opened Clocks

  datatype MonthPart = Early | Mid | Late

  datatype DateSpec = DateSpec(year: int, month: Option<nat>, day: Option<nat>, part: Option<MonthPart>,
      clock: Option<Clock>,
                               utcOffsetMinutes: Option<int>, calendarUncertain: bool)

  predicate Validate(d: DateSpec) {
    && (d.month.Some? ==> 1 <= d.month.value <= 12)
    && (d.day.Some? ==> 1 <= d.day.value <= if d.month.Some? then DaysInMonth(d.year, d.month.value) else 31)
    && (d.clock.Some? && d.clock.value.At? ==>
      d.clock.value.hour <= 47 && d.clock.value.minute <= 59 && d.clock.value.second <= 60)
  }

  /** A valid date is one of the calendar, and a valid day alone is one that some month has. */
  lemma ValidDatesExact(d: DateSpec)
    requires d.clock.None?
    ensures d.month.Some? && d.day.Some? ==> (Validate(d) <==> ValidDate(Date(d.year, d.month.value, d.day.value)))
    ensures d.month.Some? && d.day.None? ==> (Validate(d) <==> ValidDate(Date(d.year, d.month.value, 1)))
    ensures d.month.None? && d.day.Some? ==> (Validate(d) <==> exists m: int :: ValidDate(Date(d.year, m, d.day.value)))
  {
    if d.month.None? && d.day.Some? && Validate(d) {
      assert ValidDate(Date(d.year, 1, d.day.value));
    }
  }

  function DayNumber(y: int, m: int, d: int): int {
    DaysFromCivil(Date(y, m, d))
  }

  /** The first day of the dated period and the day after it. */
  function DaySpan(d: DateSpec): (int, int) {
    if d.month.None? then (DayNumber(d.year, 1, 1), DayNumber(d.year + 1, 1, 1))
    else
      var first := DayNumber(d.year, d.month.value, 1);
      if d.day.Some? then (DayNumber(d.year, d.month.value, d.day.value),
        DayNumber(d.year, d.month.value, d.day.value) + 1)
      else
        match d.part
        case None => (first, first + DaysInMonth(d.year, d.month.value))
        case Some(Early) => (first, first + 10)
        case Some(Mid) => (first + 10, first + 20)
        case Some(Late) => (first + 20, first + DaysInMonth(d.year, d.month.value))
  }

  function UtcOffset(d: DateSpec, defaultOffset: int): int {
    (if d.utcOffsetMinutes.Some? then d.utcOffsetMinutes.value else defaultOffset) * TICKS_PER_MINUTE
  }

  predicate Timed(d: DateSpec) {
    d.clock.Some? && d.day.Some?
  }

  /** The ticks of the dated period, from the first to the one after the last. */
  function GregorianBounds(d: DateSpec, defaultOffset: int): (int, int) {
    var days, off := DaySpan(d), UtcOffset(d, defaultOffset);
    if Timed(d) then
      var (o, len) := OffsetAndLen(d.clock.value);
      (days.0 * TICKS_PER_DAY + o - off, days.0 * TICKS_PER_DAY + o + len - off)
    else (days.0 * TICKS_PER_DAY - off, days.1 * TICKS_PER_DAY - off)
  }

  /** The bounds, or nothing when 64 bits overflow. */
  function Bounds(d: DateSpec, defaultOffset: int): Option<(int, int)> {
    var days, off := DaySpan(d), UtcOffset(d, defaultOffset);
    var (s, e) := GregorianBounds(d, defaultOffset);
    if Fits(days.0 * TICKS_PER_DAY) && Fits(s + off) && Fits(e + off) && Fits(s) && Fits(e) then Some((s, e)) else None
  }
}
