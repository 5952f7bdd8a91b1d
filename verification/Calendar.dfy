/** The windows that calendars give for dates and days: which ticks they hold, and that they are never backwards,
  * as the resolver relies on (time/expr.rs, time/calendar.rs).
  */
module Calendars {
  import opened Wrappers
  import opened TimeRange
  import opened Civil
  import opened Clocks
  import opened Dates
  import Ranges
  import Resolver

  // ------------------------------------------------------------ the days of a period

  lemma {:induction false} MarchIncreasing(y: int, z: int)
    requires y <= z
    ensures MarchDays(y) + 365 * (z - y) <= MarchDays(z)
    decreases z - y
  {
    hide MarchDays, IsLeapYear;
    if y < z {
      MarchIncreasing(y, z - 1);
      NewMarchYear(z - 1);
    }
  }

  lemma NewYear(y: int)
    ensures DayNumber(y, 1, 1) == MarchDays(y - 1) + 306 - 719_468
  {
    DaysByMarch(Date(y, 1, 1));
  }

  /** The first days of two years are as far apart as the years. */
  lemma YearsIncreasing(y: int, z: int)
    requires y < z
    ensures DayNumber(y, 1, 1) < DayNumber(z, 1, 1)
  {
    hide DaysFromCivil, MarchDays;
    NewYear(y);
    NewYear(z);
    MarchIncreasing(y - 1, z - 1);
  }

  /** A date lies between the first days of its year and of the next one. */
  lemma InOwnYear(date: Date)
    requires ValidDate(date)
    ensures DayNumber(date.year, 1, 1) <= DaysFromCivil(date) < DayNumber(date.year + 1, 1, 1)
  {
    hide DaysFromCivil, MarchDays, MonthStart, IsLeapYear;
    NewYear(date.year);
    NewYear(date.year + 1);
    DaysByMarch(date);
    NewMarchYear(date.year - 1);
    var mp := MarchMonth(date.month);
    MonthLengths(date.year, mp);
    MonthsInYear(mp);
    LeapDays(date.year);
  }

  lemma MonthsInYear(mp: int)
    requires 0 <= mp <= 11
    ensures mp <= 9 ==> 0 <= MonthStart(mp) && MonthStart(mp + 1) <= 306
    ensures mp >= 10 ==> MonthStart(mp) >= 306
    ensures MonthStart(10) == 306 && MonthStart(11) == 337
  {}

  lemma LeapDays(y: int)
    ensures DaysInMonth(y, 2) == if IsLeapYear(y) then 29 else 28
  {}

  /** The days from one first of January to the next are those whose date is of the year. */
  lemma YearExact(y: int, z: int)
    ensures DayNumber(y, 1, 1) <= z < DayNumber(y + 1, 1, 1) <==> CivilFromDays(z).year == y
  {
    hide DaysFromCivil, CivilFromDays;
    var date := CivilFromDays(z);
    DaysOfCivil(z);
    InOwnYear(date);
    if date.year < y {
      if date.year + 1 < y { YearsIncreasing(date.year + 1, y); }
    } else if y < date.year {
      if y + 1 < date.year { YearsIncreasing(y + 1, date.year); }
    }
  }

  /** Some consecutive days of a month are those of that month whose day lies between. */
  lemma MonthExact(y: int, m: int, a: int, b: int, z: int)
    requires 1 <= m <= 12 && 0 <= a <= b <= DaysInMonth(y, m)
    ensures DayNumber(y, m, 1) + a <= z < DayNumber(y, m, 1) + b <==>
              CivilFromDays(z).year == y && CivilFromDays(z).month == m && a < CivilFromDays(z).day <= b
  {
    hide CivilFromDays, DaysInMonth, DaysFromCivil;
    DaysOfCivil(z);
    var date := CivilFromDays(z);
    DaysByMarch(Date(y, m, 1));
    DaysByMarch(date);
    var k := z - DayNumber(y, m, 1);
    DaysByMarch(Date(y, m, 1 + k));
    if a <= k < b { CivilOfDays(Date(y, m, 1 + k)); }
  }

  /** The date has the year, and the month, the day and the part of the month if these are given. */
  predicate Matches(d: DateSpec, date: Date) {
    && date.year == d.year
    && (d.month.Some? ==>
          && date.month == d.month.value
          && match (d.day, d.part) {
               case (Some(day), _) => date.day == day
               case (None, None) => true
               case (None, Some(Early)) => 1 <= date.day <= 10
               case (None, Some(Mid)) => 11 <= date.day <= 20
               case (None, Some(Late)) => 21 <= date.day
             })
  }

  /** The period consists of the days whose date matches. */
  lemma DaysExact(d: DateSpec, z: int)
    requires Validate(d)
    ensures DaySpan(d).0 <= z < DaySpan(d).1 <==> Matches(d, CivilFromDays(z))
  {
    hide CivilFromDays, DaysFromCivil;
    DaysOfCivil(z);
    if d.month.None? {
      YearExact(d.year, z);
    } else {
      var y, m := d.year, d.month.value;
      var n := DaysInMonth(y, m);
      if d.day.Some? {
        MonthExact(y, m, d.day.value - 1, d.day.value, z);
        DaysByMarch(Date(y, m, 1));
        DaysByMarch(Date(y, m, d.day.value));
      } else {
        match d.part
        case None => MonthExact(y, m, 0, n, z);
        case Some(Early) => MonthExact(y, m, 0, 10, z);
        case Some(Mid) => MonthExact(y, m, 10, 20, z);
        case Some(Late) => MonthExact(y, m, 20, n, z);
      }
    }
  }

  /** No period is empty. */
  lemma DaysOrdered(d: DateSpec)
    requires Validate(d)
    ensures DaySpan(d).0 < DaySpan(d).1
  {
    hide DaysFromCivil;
    YearsIncreasing(d.year, d.year + 1);
  }

  /** The local time of a tick that has passed since the start of its day. */
  function TimeOfDay(t: int, off: int): int {
    (t + off) % TICKS_PER_DAY
  }

  function LocalDate(t: int, off: int): Date {
    CivilFromDays((t + off) / TICKS_PER_DAY)
  }

  lemma DayOfTick(t: int, a: int, b: int)
    ensures a * TICKS_PER_DAY <= t < b * TICKS_PER_DAY <==> a <= t / TICKS_PER_DAY < b
  {}

  /** The date to which a time of day belongs; a day without a month is the first of the year. */
  function TimedDate(d: DateSpec): Date {
    if d.month.Some? && d.day.Some? then Date(d.year, d.month.value, d.day.value) else Date(d.year, 1, 1)
  }

  /** Without a time of day the bounds hold exactly the ticks whose local date matches. With one they hold those that,
    * moved back by the offset of the clock, fall on the date and within the length of the clock.
    */
  lemma BoundsExact(d: DateSpec, defaultOffset: int, t: int)
    requires Validate(d)
    ensures var (s, e), off := GregorianBounds(d, defaultOffset), UtcOffset(d, defaultOffset);
            s < e &&
            (s <= t < e <==>
              if Timed(d)
              then var (o, len) := OffsetAndLen(d.clock.value);
                LocalDate(t - o, off) == TimedDate(d) && TimeOfDay(t - o, off) < len
              else Matches(d, LocalDate(t, off)))
  {
    hide Matches, CivilFromDays, DaysFromCivil, UtcOffset;
    var off := UtcOffset(d, defaultOffset);
    if Timed(d) {
      var (o, len) := OffsetAndLen(d.clock.value);
      LenShort(d.clock.value);
      var z := (t - o + off) / TICKS_PER_DAY;
      CivilOfDays(TimedDate(d));
      DaysOfCivil(z);
      assert LocalDate(t - o, off) == TimedDate(d) <==> z == DaysFromCivil(TimedDate(d));
    } else {
      DaysOrdered(d);
      DaysExact(d, (t + off) / TICKS_PER_DAY);
      DayOfTick(t + off, DaySpan(d).0, DaySpan(d).1);
    }
  }

  lemma LenShort(clock: Clock)
    ensures OffsetAndLen(clock).0 >= 0 && 1 <= OffsetAndLen(clock).1 <= TICKS_PER_DAY / 2
  {}

  // ------------------------------------------------------------ calendars of equal days

  /** The ticks of a day, and the tick with which day 0 begins. */
  datatype Frame = Frame(ticksPerDay: int, origin: int)

  function Clamped(t: int): int {
    if t < NEG_INF + 1 then NEG_INF + 1 else if t > POS_INF - 1 then POS_INF - 1 else t
  }

  function DayStart(f: Frame, day: int): int {
    Clamped(day * f.ticksPerDay + f.origin)
  }

  /** A clock in proportion to the length of the day. */
  function Scaled(f: Frame, ticks: int): int {
    Resolver.Truncated(ticks * f.ticksPerDay, TICKS_PER_DAY)
  }

  function ClockBounds(f: Frame, day: int, clock: Clock): (int, int) {
    var start := Ranges.Offset(DayStart(f, day), Scaled(f, OffsetAndLen(clock).0));
    (start, Ranges.Offset(start, Ranges.Max(Scaled(f, OffsetAndLen(clock).1), 1)))
  }

  /** The days from the first to the last, or the clock on the first up to the clock on the last. */
  function DayWindow(f: Frame, first: int, last: int, clock: Option<Clock>): (int, int) {
    match clock
    case Some(c) => (ClockBounds(f, first, c).0, ClockBounds(f, last, c).1)
    case None => (DayStart(f, first), DayStart(f, last + 1))
  }

  lemma DayStartMonotone(f: Frame, a: int, b: int)
    requires f.ticksPerDay > 0 && a <= b
    ensures NEG_INF < DayStart(f, a) <= DayStart(f, b) < POS_INF
  {
    Product(a, b, f.ticksPerDay);
  }

  /** A window of days is never backwards and never infinite. */
  lemma DayWindowOrdered(f: Frame, first: int, last: int, clock: Option<Clock>)
    requires f.ticksPerDay > 0 && first <= last
    ensures var (s, e) := DayWindow(f, first, last, clock); NEG_INF < s <= e < POS_INF
  {
    hide DayStart, Scaled;
    DayStartMonotone(f, first, last);
    DayStartMonotone(f, first, last + 1);
  }

  // ------------------------------------------------------------ months and years from the reference

  /** The month that lies `delta` months from the given one. */
  function ShiftMonth(y: int, m: int, delta: int): (int, int) {
    var index := y * 12 + (m - 1) + delta;
    (index / 12, index % 12 + 1)
  }

  function MonthBounds(f: Frame, y: int, m: int): (int, int) {
    (DayStart(f, DayNumber(y, m, 1)), DayStart(f, DayNumber(y, m, 1) + DaysInMonth(y, m)))
  }

  function YearBounds(f: Frame, y: int): (int, int) {
    (DayStart(f, DayNumber(y, 1, 1)), DayStart(f, DayNumber(y + 1, 1, 1)))
  }

  function FirstOf(index: int): int {
    DayNumber(index / 12, index % 12 + 1, 1)
  }

  /** After the last day of a month comes the first day of the next. */
  lemma NextMonth(index: int)
    ensures FirstOf(index + 1) == FirstOf(index) + DaysInMonth(index / 12, index % 12 + 1)
  {
    hide DaysFromCivil, IsLeapYear;
    var y, m := index / 12, index % 12 + 1;
    var last := Date(y, m, DaysInMonth(y, m));
    NextDayIsOneMore(last);
    DaysByMarch(last);
    DaysByMarch(Date(y, m, 1));
    assert (index + 1) / 12 == (if m < 12 then y else y + 1) && (index + 1) % 12 == m % 12;
  }

  lemma MonthLong(m: int, y: int)
    requires 1 <= m <= 12
    ensures DaysInMonth(y, m) >= 28
  {}

  lemma {:induction false} MonthsIncreasing(a: int, b: int)
    requires a <= b
    ensures FirstOf(a) <= FirstOf(b)
    decreases b - a
  {
    hide DaysFromCivil, FirstOf, IsLeapYear;
    if a < b {
      MonthLong((b - 1) % 12 + 1, (b - 1) / 12);
      MonthsIncreasing(a, b - 1);
      NextMonth(b - 1);
    }
  }

  /** The window from one shifted month to a later one, or from one shifted year to a later one, is never backwards. */
  lemma ShiftedOrdered(f: Frame, y: int, m: int, min: int, max: int)
    requires f.ticksPerDay > 0 && min <= max
    ensures var a, b := ShiftMonth(y, m, min), ShiftMonth(y, m, max);
            NEG_INF < MonthBounds(f, a.0, a.1).0 <= MonthBounds(f, b.0, b.1).1 < POS_INF
    ensures NEG_INF < YearBounds(f, y + min).0 <= YearBounds(f, y + max).1 < POS_INF
  {
    hide DayStart, DaysFromCivil;
    var i, j := y * 12 + (m - 1) + min, y * 12 + (m - 1) + max;
    MonthsIncreasing(i, j);
    DayStartMonotone(f, FirstOf(i), FirstOf(j) + DaysInMonth(j / 12, j % 12 + 1));
    YearsIncreasing(y + min, y + max + 1);
    DayStartMonotone(f, DayNumber(y + min, 1, 1), DayNumber(y + max + 1, 1, 1));
  }

  // ------------------------------------------------------------ the ticks of these windows

  /** The day to which a tick belongs. */
  function DayOf(f: Frame, t: int): int
    requires f.ticksPerDay > 0
  {
    (t - f.origin) / f.ticksPerDay
  }

  /** A tick that the windows, which are cut off at the ends of the axis, can hold. */
  predicate Inner(t: int) {
    NEG_INF < t < POS_INF - 1
  }

  lemma DayStartExact(f: Frame, day: int, t: int)
    requires f.ticksPerDay > 0 && Inner(t)
    ensures DayStart(f, day) <= t <==> day <= DayOf(f, t)
  {
    var q := DayOf(f, t);
    var r := t - f.origin - q * f.ticksPerDay;
    assert 0 <= r < f.ticksPerDay;
    if day <= q { Product(day, q, f.ticksPerDay); } else { Product(q + 1, day, f.ticksPerDay); }
  }

  /** A window of days holds exactly the ticks of these days. */
  lemma DayWindowExact(f: Frame, first: int, last: int, t: int)
    requires f.ticksPerDay > 0 && Inner(t)
    ensures var (s, e) := DayWindow(f, first, last, None); s <= t < e <==> first <= DayOf(f, t) <= last
  {
    hide DayStart, DayOf;
    DayStartExact(f, first, t);
    DayStartExact(f, last + 1, t);
  }

  /** The window of a month holds exactly the ticks of days with a date in the month, and that of a year likewise. */
  lemma MonthWindowExact(f: Frame, y: int, m: int, t: int)
    requires f.ticksPerDay > 0 && Inner(t) && 1 <= m <= 12
    ensures var date := CivilFromDays(DayOf(f, t));
            && (MonthBounds(f, y, m).0 <= t < MonthBounds(f, y, m).1 <==> date.year == y && date.month == m)
            && (YearBounds(f, y).0 <= t < YearBounds(f, y).1 <==> date.year == y)
  {
    hide DayStart, DayOf, DaysFromCivil, CivilFromDays;
    var day, n := DayOf(f, t), DaysInMonth(y, m);
    DayStartExact(f, DayNumber(y, m, 1), t);
    DayStartExact(f, DayNumber(y, m, 1) + n, t);
    DayStartExact(f, DayNumber(y, 1, 1), t);
    DayStartExact(f, DayNumber(y + 1, 1, 1), t);
    MonthLong(m, y);
    MonthExact(y, m, 0, n, day);
    YearExact(y, day);
    DayInMonth(day);
  }

  lemma DayInMonth(day: int)
    ensures var date := CivilFromDays(day); 1 <= date.day <= DaysInMonth(date.year, date.month)
  {
    hide CivilFromDays, DaysFromCivil;
    DaysOfCivil(day);
  }

  /** Months are counted on through the years. */
  lemma ShiftMonthExact(y: int, m: int, delta: int)
    ensures var (yy, mm) := ShiftMonth(y, m, delta); 1 <= mm <= 12 && 12 * yy + mm == 12 * y + m + delta
  {}

  /** A clock is to the day of the calendar as it is to a day of 24 hours, rounded down, and lasts at least a tick. */
  lemma ClockBoundsExact(f: Frame, day: int, clock: Clock)
    requires f.ticksPerDay > 0
    requires var start := day * f.ticksPerDay + f.origin; NEG_INF < start && start + 4 * f.ticksPerDay < POS_INF
    ensures var (s, e), (o, len) := ClockBounds(f, day, clock), OffsetAndLen(clock);
            var from := s - (day * f.ticksPerDay + f.origin);
            && (ValidClock(clock) ==> from * TICKS_PER_DAY <= o * f.ticksPerDay < (from + 1) * TICKS_PER_DAY)
            && (ValidClock(clock) && (e - s) != 1 ==>
                  (e - s) * TICKS_PER_DAY <= len * f.ticksPerDay < (e - s + 1) * TICKS_PER_DAY)
            && (ValidClock(clock) && (e - s) == 1 ==> len * f.ticksPerDay < 2 * TICKS_PER_DAY)
  {
    if ValidClock(clock) {
      ClockSmall(clock);
      var (o, len) := OffsetAndLen(clock);
      ScaledExact(f, o, 3);
      ScaledExact(f, len, 1);
    }
  }

  lemma ClockSmall(clock: Clock)
    requires ValidClock(clock)
    ensures 0 <= OffsetAndLen(clock).0 <= 3 * TICKS_PER_DAY && 0 < OffsetAndLen(clock).1 <= TICKS_PER_DAY
  {}

  lemma ScaledExact(f: Frame, ticks: int, days: int)
    requires f.ticksPerDay > 0 && 0 <= ticks <= days * TICKS_PER_DAY
    ensures var u := Scaled(f, ticks);
            u * TICKS_PER_DAY <= ticks * f.ticksPerDay < (u + 1) * TICKS_PER_DAY && 0 <= u <= days * f.ticksPerDay
  {
    Product(ticks, days * TICKS_PER_DAY, f.ticksPerDay);
    assert ticks * f.ticksPerDay >= 0;
    assert days * TICKS_PER_DAY * f.ticksPerDay == days * f.ticksPerDay * TICKS_PER_DAY;
  }

  // ------------------------------------------------------------ what the resolver is given

  /** The window of a date, refused if it is no date or leaves 64 bits. */
  function DateWindow(d: DateSpec, defaultOffset: int): Resolver.Window {
    if !Validate(d) then Resolver.Refused(Resolver.Unsupported)
    else
      match Bounds(d, defaultOffset)
      case None => Resolver.Refused(Resolver.Overflow)
      case Some((s, e)) => Resolver.Bounds(s, e, d.calendarUncertain)
  }

  function DaysWindow(f: Frame, first: int, last: int, clock: Option<Clock>): Resolver.Window {
    Resolver.Bounds(DayWindow(f, first, last, clock).0, DayWindow(f, first, last, clock).1, false)
  }

  ghost predicate AnchorsReasonable(ctx: Resolver.Context) {
    && (forall a | Resolver.AnchorRange(ctx, a).Resolved? :: Resolver.Reasonable(Resolver.AnchorRange(ctx, a).range))
    && (ctx.ticksPerDay.Some? ==> ctx.ticksPerDay.value > 0)
  }

  /** So every date and every window of days resolves to an ordered range, unless it is no date or leaves 64 bits. */
  lemma CalendarResolvesOrdered(ctx: Resolver.Context, d: DateSpec, defaultOffset: int, f: Frame, first: int,
      last: int, clock: Option<Clock>)
    requires AnchorsReasonable(ctx) && f.ticksPerDay > 0 && first <= last
    ensures var date := Resolver.Resolve(ctx, Resolver.InWindow(DateWindow(d, defaultOffset)));
            && (date.Resolved? <==> Validate(d) && Bounds(d, defaultOffset).Some?)
            && (date.Resolved? ==> Resolver.Reasonable(date.range))
    ensures var days := Resolver.Resolve(ctx, Resolver.InWindow(DaysWindow(f, first, last, clock)));
            days.Resolved? && Resolver.Reasonable(days.range)
  {
    hide DaySpan, Validate, GregorianBounds, DayWindow, Resolver.Reasonable, Resolver.AnchorRange;
    if Validate(d) && Bounds(d, defaultOffset).Some? {
      BoundsOrdered(d, defaultOffset);
      Resolver.ResolvedOrdered(ctx, Resolver.InWindow(DateWindow(d, defaultOffset)));
    }
    DayWindowOrdered(f, first, last, clock);
    Resolver.ResolvedOrdered(ctx, Resolver.InWindow(DaysWindow(f, first, last, clock)));
  }

  lemma BoundsOrdered(d: DateSpec, defaultOffset: int)
    requires Validate(d)
    ensures GregorianBounds(d, defaultOffset).0 < GregorianBounds(d, defaultOffset).1
  {
    hide DaySpan;
    DaysOrdered(d);
    if Timed(d) { LenShort(d.clock.value); }
  }
}
