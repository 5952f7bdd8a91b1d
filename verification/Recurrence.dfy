/** Recurring events: searching the days around a window finds an occurrence exactly when some day of the
  * calendar has one that overlaps it, unless the search leaves 64 bits (time/range.rs, time/expr.rs).
  */
module Recurrences {
  import opened Wrappers
  import opened TimeRange
  import opened Civil
  import opened Clocks

  const HORIZON: int := 400 * 366 * TICKS_PER_DAY

  datatype Rule = Daily | Weekly(weekday: int) | Monthly(day: int) | Yearly(month: int, dayOfMonth: int)

  predicate MatchesDay(rule: Rule, day: int) {
    match rule
    case Daily => true
    case Weekly(weekday) => WeekdayFromDays(day) == weekday
    case Monthly(d) => CivilFromDays(day).day == d
    case Yearly(m, d) => CivilFromDays(day).month == m && CivilFromDays(day).day == d
  }

  /** A monthly rule picks the dates with its day, and a yearly one the dates with its month and day. */
  lemma RuleByDates(rule: Rule, date: Date)
    requires ValidDate(date)
    ensures rule.Daily? ==> MatchesDay(rule, DaysFromCivil(date))
    ensures rule.Monthly? ==> (MatchesDay(rule, DaysFromCivil(date)) <==> rule.day == date.day)
    ensures rule.Yearly? ==>
              (MatchesDay(rule, DaysFromCivil(date)) <==> rule.month == date.month && rule.dayOfMonth == date.day)
  {
    hide CivilFromDays, DaysFromCivil, ValidDate;
    CivilOfDays(date);
  }

  /** Every day is that of a date. */
  lemma DayHasDate(day: int) returns (date: Date)
    ensures ValidDate(date) && DaysFromCivil(date) == day
  {
    hide CivilFromDays, DaysFromCivil, ValidDate;
    DaysOfCivil(day);
    date := CivilFromDays(day);
  }

  /** Every day has one weekday, from Monday as 0 to Sunday as 6; the next day has the next one, and 1970-01-01 was a
    * Thursday.
    */
  lemma RuleByWeekday(weekday: int, other: int, day: int)
    requires 0 <= weekday < 7 && 0 <= other < 7
    ensures MatchesDay(Weekly(3), DaysFromCivil(Date(1970, 1, 1)))
    ensures MatchesDay(Weekly(weekday), day) <==> MatchesDay(Weekly((weekday + 1) % 7), day + 1)
    ensures MatchesDay(Weekly(weekday), day) && MatchesDay(Weekly(other), day) ==> weekday == other
    ensures MatchesDay(Weekly((day + 3) % 7), day)
  {}

  function ClockStart(clock: Option<Clock>): int {
    if clock.None? then 0 else OffsetAndLen(clock.value).0
  }

  /** A 32-bit number of minutes. */
  type Minutes = m: int | -0x8000_0000 <= m <= 0x7FFF_FFFF

  datatype Spec = Spec(rule: Rule, clock: Option<Clock>, occurrenceLen: int, utcOffsetMinutes: Minutes) {
    function Offset(): int { utcOffsetMinutes * TICKS_PER_MINUTE }
  }

  /** Division truncates toward zero. */
  function WholeDays(len: int): int {
    if len >= 0 then len / TICKS_PER_DAY else -((-len) / TICKS_PER_DAY)
  }

  function Length(spec: Spec): int {
    if spec.occurrenceLen > 1 then spec.occurrenceLen else 1
  }

  /** Where the occurrence of a day starts. */
  function StartOn(spec: Spec, day: int): int {
    day * TICKS_PER_DAY + ClockStart(spec.clock) - spec.Offset()
  }

  /** An occurrence on the day would overlap the window. */
  predicate Reaches(spec: Spec, day: int, lo: int, hi: int) {
    StartOn(spec, day) < hi && StartOn(spec, day) + Length(spec) > lo
  }

  /** The day has an occurrence, and it overlaps the window. */
  predicate OccursOn(spec: Spec, day: int, lo: int, hi: int) {
    MatchesDay(spec.rule, day) && Reaches(spec, day, lo, hi)
  }

  function FirstDay(spec: Spec, lo: int): int {
    (lo + spec.Offset()) / TICKS_PER_DAY - 2 - WholeDays(spec.occurrenceLen)
  }

  function LastDay(spec: Spec, hi: int): int {
    (hi + spec.Offset()) / TICKS_PER_DAY + 1
  }

  function Saturated(t: int): int {
    if t < NEG_INF then NEG_INF else if t > POS_INF then POS_INF else t
  }

  /** An infinite window is cut to some hundred years. */
  function FiniteWindow(lo: int, hi: int): (int, int) {
    var lo' := if IsFinite(lo) then lo else Saturated(hi - HORIZON);
    (lo', if IsFinite(hi) then hi else Saturated(lo' + HORIZON))
  }

  predicate Searched(spec: Spec, day: int, lo: int, hi: int) {
    FirstDay(spec, lo) <= day <= LastDay(spec, hi)
  }

  /** Where the occurrence of a day starts and ends is computed within 64 bits. */
  predicate DayFits(spec: Spec, day: int) {
    && Fits(day * TICKS_PER_DAY) && Fits(day * TICKS_PER_DAY + ClockStart(spec.clock))
    && Fits(StartOn(spec, day)) && Fits(StartOn(spec, day) + Length(spec))
  }

  /** Day after day until an occurrence overlaps; nothing when 64 bits overflow on the way. */
  function SearchFrom(spec: Spec, day: int, last: int, lo: int, hi: int): Option<bool>
    decreases last - day
  {
    if day > last then Some(false)
    else if !MatchesDay(spec.rule, day) then SearchFrom(spec, day + 1, last, lo, hi)
    else if !DayFits(spec, day) then None
    else if Reaches(spec, day, lo, hi) then Some(true)
    else SearchFrom(spec, day + 1, last, lo, hi)
  }

  /** The ends of the window in local time fit 64 bits. */
  predicate EndsFit(spec: Spec, lo: int, hi: int) {
    Fits(lo + spec.Offset()) && Fits(hi + spec.Offset())
  }

  /** Searching the window, once it is cut to a finite one. */
  function Search(spec: Spec, lo: int, hi: int): Option<bool> {
    var (l, h) := FiniteWindow(lo, hi);
    if EndsFit(spec, l, h) then SearchFrom(spec, FirstDay(spec, l), LastDay(spec, h), l, h) else None
  }

  /** A window of the axis; either side may be infinite. */
  predicate OnAxis(lo: int, hi: int) {
    NEG_INF <= lo < POS_INF && NEG_INF < hi <= POS_INF
  }

  method AnyOccurrenceIn(spec: Spec, lo: int, hi: int) returns (found: Option<bool>)
    ensures found == Search(spec, lo, hi)
    ensures Margin(spec) && OnAxis(lo, hi) && found.Some? ==>
      (found.value <==> exists day :: OccursOn(spec, day, lo, hi))
  {
    hide MatchesDay, DayFits, Reaches, FiniteWindow, FirstDay, LastDay, Margin;
    if Margin(spec) && OnAxis(lo, hi) { SearchExact(spec, lo, hi); }
    var (l, h) := FiniteWindow(lo, hi);
    if !EndsFit(spec, l, h) { return None; }
    var day := FirstDay(spec, l);
    while day <= LastDay(spec, h)
      invariant SearchFrom(spec, day, LastDay(spec, h), l, h) == Search(spec, lo, hi)
      decreases LastDay(spec, h) - day
    {
      if MatchesDay(spec.rule, day) {
        if !DayFits(spec, day) { return None; }
        if Reaches(spec, day, l, h) { return Some(true); }
      }
      day := day + 1;
    }
    return Some(false);
  }

  // ------------------------------------------------------------ the margin

  /** The search reaches back far enough for this clock and length. */
  predicate Margin(spec: Spec) {
    ClockStart(spec.clock) + Length(spec) <= (3 + WholeDays(spec.occurrenceLen)) * TICKS_PER_DAY
  }

  /** No day outside the searched range could have an overlapping occurrence, whatever the rule and the window. */
  ghost predicate LosesNothing(spec: Spec) {
    forall lo, hi, day | lo < hi && Reaches(spec, day, lo, hi) :: Searched(spec, day, lo, hi)
  }

  lemma DayBelow(day: int, t: int)
    requires day * TICKS_PER_DAY <= t
    ensures day <= t / TICKS_PER_DAY
  {}

  lemma MarginReaches(spec: Spec, day: int, lo: int, hi: int)
    requires Margin(spec) && Reaches(spec, day, lo, hi)
    ensures Searched(spec, day, lo, hi)
  {
    var off := spec.Offset();
    DayBelow(day, hi + off);
    assert (day + 3 + WholeDays(spec.occurrenceLen)) * TICKS_PER_DAY > lo + off;
  }

  /** The range of days is wide enough for every rule and window exactly when the margin holds. */
  lemma MarginExact(spec: Spec)
    ensures LosesNothing(spec) <==> Margin(spec)
  {
    if Margin(spec) {
      forall lo, hi, day | lo < hi && Reaches(spec, day, lo, hi) ensures Searched(spec, day, lo, hi) {
        MarginReaches(spec, day, lo, hi);
      }
    } else {
      // The occurrence three days and its length before the epoch overlaps a window from the epoch on.
      var q := WholeDays(spec.occurrenceLen);
      var day, lo := -3 - q, -spec.Offset();
      assert StartOn(spec, day) + Length(spec) > lo;
      var hi := (if StartOn(spec, day) > lo then StartOn(spec, day) else lo) + 1;
      assert FirstDay(spec, lo) == -2 - q;
      assert Reaches(spec, day, lo, hi) && !Searched(spec, day, lo, hi);
    }
  }

  // ------------------------------------------------------------ the calendar repeats

  const ERA_DAYS: int := 146_097
  const ERA_TICKS: int := ERA_DAYS * TICKS_PER_DAY

  /** Every rule repeats after 400 years, so cutting an infinite window to a few more loses nothing. */
  lemma RuleRepeats(rule: Rule, day: int, k: int)
    ensures MatchesDay(rule, day + k * ERA_DAYS) <==> MatchesDay(rule, day)
  {
    hide YearOfEra;
    var z := day + 719_468;
    Quotient(z + k * ERA_DAYS, ERA_DAYS, z / ERA_DAYS + k);
    Remainder(day + k * ERA_DAYS + 3, 7, (day + 3) / 7 + 20_871 * k, (day + 3) % 7);
  }

  /** Moving an occurrence by whole eras, into the era that ends at `t`. */
  lemma IntoEra(spec: Spec, day: int, t: int) returns (moved: int)
    ensures MatchesDay(spec.rule, moved) <==> MatchesDay(spec.rule, day)
    ensures t - ERA_TICKS <= StartOn(spec, moved) < t
  {
    var k := (t - 1 - StartOn(spec, day)) / ERA_TICKS;
    moved := day + k * ERA_DAYS;
    RuleRepeats(spec.rule, day, k);
    assert StartOn(spec, moved) == StartOn(spec, day) + k * ERA_TICKS;
  }

  /** The first day on which the search stops is one on which it overflows. */
  ghost predicate StopsAt(spec: Spec, day: int, first: int, lo: int, hi: int) {
    MatchesDay(spec.rule, day) && !DayFits(spec, day) && forall k | first <= k < day :: !OccursOn(spec, k, lo, hi)
  }

  lemma {:induction false} SearchFromExact(spec: Spec, day: int, last: int, lo: int, hi: int)
    ensures var r := SearchFrom(spec, day, last, lo, hi);
            && (r.None? <==> exists d :: day <= d <= last && StopsAt(spec, d, day, lo, hi))
            && (r.Some? ==> (r.value <==> exists d :: day <= d <= last && OccursOn(spec, d, lo, hi)))
    decreases last - day
  {
    hide MatchesDay, DayFits, Reaches;
    if day <= last {
      SearchFromExact(spec, day + 1, last, lo, hi);
      assert OccursOn(spec, day, lo, hi) <==> MatchesDay(spec.rule, day) && Reaches(spec, day, lo, hi);
      assert StopsAt(spec, day, day, lo, hi) <==> MatchesDay(spec.rule, day) && !DayFits(spec, day);
      var next := day + 1;
      if d :| next <= d <= last && StopsAt(spec, d, next, lo, hi) {
        assert !OccursOn(spec, day, lo, hi) ==> StopsAt(spec, d, day, lo, hi);
      }
      if d :| day < d <= last && StopsAt(spec, d, day, lo, hi) {
        assert !OccursOn(spec, day, lo, hi) && StopsAt(spec, d, day + 1, lo, hi);
      }
    }
  }

  /** The search leaves 64 bits: at an end of the window, or on a day before which it finds nothing. */
  ghost predicate Overflows(spec: Spec, lo: int, hi: int) {
    var (l, h) := FiniteWindow(lo, hi);
    !EndsFit(spec, l, h) || exists day :: Searched(spec, day, l, h) && StopsAt(spec, day, FirstDay(spec, l), l, h)
  }

  /** For every window the search fails by overflow, or is right: it finds something if and only if some day's
    * occurrence overlaps the window.
    */
  lemma SearchExact(spec: Spec, lo: int, hi: int)
    requires Margin(spec) && OnAxis(lo, hi)
    ensures Search(spec, lo, hi) == if Overflows(spec, lo, hi) then None
      else Some(exists day :: OccursOn(spec, day, lo, hi))
  {
    hide MatchesDay, StartOn, FirstDay, LastDay, Margin, StopsAt;
    var (l, h) := FiniteWindow(lo, hi);
    assert lo <= l && h <= hi;
    SearchFromExact(spec, FirstDay(spec, l), LastDay(spec, h), l, h);
    if day :| Searched(spec, day, l, h) && OccursOn(spec, day, l, h) {
      assert OccursOn(spec, day, lo, hi);
    }
    if day :| OccursOn(spec, day, lo, hi) {
      var moved := day;
      if !Reaches(spec, day, l, h) {
        moved := IntoEra(spec, day, if lo == l then l + ERA_TICKS + 1 else h);
      }
      assert OccursOn(spec, moved, l, h);
      MarginReaches(spec, moved, l, h);
      assert Searched(spec, moved, l, h);
    }
  }

  /** What a recurring expression resolves to: the length is that of its clock, or a day. */
  function Resolved(rule: Rule, clock: Option<Clock>, utcOffsetMinutes: Minutes): Spec {
    Spec(rule, clock, if clock.None? then TICKS_PER_DAY else OffsetAndLen(clock.value).1, utcOffsetMinutes)
  }

  predicate Resolvable(spec: Spec) {
    spec == Resolved(spec.rule, spec.clock, spec.utcOffsetMinutes) &&
      (spec.clock.Some? ==> ValidClock(spec.clock.value))
  }

  /** Every recurrence that was resolved from an expression has the margin. */
  lemma ResolvedHaveMargin(spec: Spec)
    requires Resolvable(spec)
    ensures Margin(spec)
  {}

  /** Ten thousand years. */
  const FAR: int := 10_000 * 366 * TICKS_PER_DAY

  /** Finite ends of the window are that far from the ends of the axis, which is 292 million years long on either side.
    */
  predicate FarFromEnds(lo: int, hi: int) {
    && (IsFinite(lo) ==> NEG_INF + FAR <= lo <= POS_INF - FAR)
    && (IsFinite(hi) ==> NEG_INF + FAR <= hi <= POS_INF - FAR)
  }

  lemma ResolvedSmall(spec: Spec)
    requires Resolvable(spec)
    ensures 0 <= ClockStart(spec.clock) <= 3 * TICKS_PER_DAY && 1 <= Length(spec) <= TICKS_PER_DAY &&
      0 <= WholeDays(spec.occurrenceLen) <= 1
    ensures -FAR / 2 < spec.Offset() < FAR / 2
  {}

  /** A searched day is too early by at most four days and the offset, and not too late by more. */
  lemma SearchedFits(spec: Spec, day: int, l: int, h: int)
    requires Resolvable(spec) && Searched(spec, day, l, h)
    ensures NEG_INF + FAR / 2 + 4 * TICKS_PER_DAY <= l ==>
      day * TICKS_PER_DAY >= NEG_INF && StartOn(spec, day) >= NEG_INF
    ensures h <= POS_INF - FAR / 2 - 8 * TICKS_PER_DAY && NEG_INF + FAR / 2 + 4 * TICKS_PER_DAY <= l ==>
      DayFits(spec, day)
  {
    hide MatchesDay, Resolvable, ClockStart, Length, WholeDays;
    ResolvedSmall(spec);
  }

  /** Only a search of the whole axis with an offset ahead of UTC overflows. */
  lemma OverflowExact(spec: Spec, lo: int, hi: int)
    requires Resolvable(spec) && OnAxis(lo, hi) && FarFromEnds(lo, hi)
    ensures Overflows(spec, lo, hi) <==> lo == NEG_INF && hi == POS_INF && spec.utcOffsetMinutes > 0
  {
    hide MatchesDay, Resolvable, ClockStart, Length, WholeDays, DayFits, FirstDay, LastDay, StartOn;
    ResolvedSmall(spec);
    var (l, h) := FiniteWindow(lo, hi);
    if !(lo == NEG_INF && hi == POS_INF) {
      forall day | Searched(spec, day, l, h) ensures DayFits(spec, day) {
        SearchedFits(spec, day, l, h);
      }
    } else if spec.utcOffsetMinutes <= 0 {
      forall day | Searched(spec, day, l, h) ensures !StopsAt(spec, day, FirstDay(spec, l), l, h) {
        if MatchesDay(spec.rule, day) && !DayFits(spec, day) {
          var earlier := EarlierOccurrence(spec, day, l, h);
        }
      }
    }
  }

  /** Before a day that ends beyond the axis there is an occurrence 400 years or less from the start of the search. */
  lemma EarlierOccurrence(spec: Spec, day: int, l: int, h: int) returns (earlier: int)
    requires Resolvable(spec) && spec.utcOffsetMinutes <= 0 && l == POS_INF - HORIZON && h == POS_INF
    requires Searched(spec, day, l, h) && MatchesDay(spec.rule, day) && !DayFits(spec, day)
    ensures FirstDay(spec, l) <= earlier < day && OccursOn(spec, earlier, l, h)
  {
    hide MatchesDay, Resolvable, ClockStart, Length, WholeDays;
    ResolvedSmall(spec);
    ResolvedHaveMargin(spec);
    SearchedFits(spec, day, l, h);
    assert StartOn(spec, day) + Length(spec) > POS_INF;
    earlier := IntoEra(spec, day, l + ERA_TICKS + 1);
    assert OccursOn(spec, earlier, l, h);
    MarginReaches(spec, earlier, l, h);
  }

  /** So a recurrence that was resolved from an expression is searched without loss, for every window whose finite
    * ends are not at the end of the axis, exactly unless the window is the whole axis and the offset ahead of UTC.
    */
  lemma ResolvedSearchExact(spec: Spec, lo: int, hi: int)
    requires Resolvable(spec) && OnAxis(lo, hi) && FarFromEnds(lo, hi)
    ensures (Search(spec, lo, hi) == Some(exists day :: OccursOn(spec, day, lo, hi)))
            <==> !(lo == NEG_INF && hi == POS_INF && spec.utcOffsetMinutes > 0)
    ensures Search(spec, lo, hi).None? <==> lo == NEG_INF && hi == POS_INF && spec.utcOffsetMinutes > 0
  {
    hide Resolvable, Overflows, Search;
    ResolvedHaveMargin(spec);
    SearchExact(spec, lo, hi);
    OverflowExact(spec, lo, hi);
  }

  /** What remains of a sum in 64 bits. */
  function Wrapped(x: int): int {
    (x - NEG_INF) % 0x1_0000_0000_0000_0000 + NEG_INF
  }

  /** A daily event nine hours ahead of UTC is not found on the whole axis: the search fails, and if the sum wraps
    * around instead, its last day lies before its first.
    */
  lemma WholeAxisMissed()
    ensures var spec := Resolved(Daily, None, 540);
            && Resolvable(spec) && OccursOn(spec, 0, NEG_INF, POS_INF) && Search(spec, NEG_INF, POS_INF).None?
            && var (l, h) := FiniteWindow(NEG_INF, POS_INF);
            Wrapped(h + spec.Offset()) / TICKS_PER_DAY + 1 < FirstDay(spec, l)
  {
    var spec := Resolved(Daily, None, 540);
    assert FiniteWindow(NEG_INF, POS_INF).1 == POS_INF;
  }

  /** A clock of at most 48 hours leaves the margin for every length of at least one tick. */
  lemma ClockWithinTwoDays(spec: Spec)
    requires ClockStart(spec.clock) <= 2 * TICKS_PER_DAY && spec.occurrenceLen >= 1
    ensures Margin(spec)
  {
    var q := spec.occurrenceLen / TICKS_PER_DAY;
    assert spec.occurrenceLen < (q + 1) * TICKS_PER_DAY;
  }

  const LATEST: Clock := At(47, 59, 60, 999, Millisecond)

  /** The margin is needed: a spec put together by hand, with the latest clock and a length just short of a day,
    * would be missed. Resolving takes the length from the clock and never gives it.
    */
  lemma LateClockMissed()
    ensures var spec := Spec(Weekly(0), Some(LATEST), TICKS_PER_DAY - 1, 0);
            && !Margin(spec) && !Resolvable(spec) && OccursOn(spec, -3, 0, 1) && Search(spec, 0, 1) == Some(false)
  {
    var spec := Spec(Weekly(0), Some(LATEST), TICKS_PER_DAY - 1, 0);
    assert ClockStart(Some(LATEST)) == 2 * TICKS_PER_DAY + 999;
    assert FirstDay(spec, 0) == -2 && LastDay(spec, 1) == 1;
    assert WeekdayFromDays(-3) == 0;
  }
}
