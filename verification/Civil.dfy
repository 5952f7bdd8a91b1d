/** Dates of the proleptic Gregorian calendar and day numbers from 1970-01-01 (time/mod.rs). */
module Civil {
  datatype Date = Date(year: int, month: int, day: int)

  predicate IsLeapYear(y: int) {
    (y % 4 == 0 && y % 100 != 0) || y % 400 == 0
  }

  function DaysInMonth(y: int, m: int): int {
    if m in {1, 3, 5, 7, 8, 10, 12} then 31
    else if m in {4, 6, 9, 11} then 30
    else if m == 2 then if IsLeapYear(y) then 29 else 28
    else 0
  }

  predicate ValidDate(d: Date) {
    1 <= d.month <= 12 && 1 <= d.day <= DaysInMonth(d.year, d.month)
  }

  function DaysFromCivil(date: Date): int {
    var y := if date.month <= 2 then date.year - 1 else date.year;
    var era := y / 400;
    var yoe := y - era * 400;
    var mp := if date.month > 2 then date.month - 3 else date.month + 9;
    var doy := (153 * mp + 2) / 5 + date.day - 1;
    var doe := yoe * 365 + yoe / 4 - yoe / 100 + doy;
    era * 146_097 + doe - 719_468
  }

  function CivilFromDays(days: int): Date {
    var z := days + 719_468;
    var era := z / 146_097;
    var doe := z - era * 146_097;
    var yoe := YearOfEra(doe);
    var y := yoe + era * 400;
    var doy := doe - (365 * yoe + yoe / 4 - yoe / 100);
    var mp := (5 * doy + 2) / 153;
    var d := doy - (153 * mp + 2) / 5 + 1;
    var m := if mp < 10 then mp + 3 else mp - 9;
    Date(if m <= 2 then y + 1 else y, m, d)
  }

  function YearOfEra(doe: int): int {
    (doe - doe / 1460 + doe / 36_524 - doe / 146_096) / 365
  }

  function WeekdayFromDays(days: int): int {
    (days + 3) % 7
  }

  // ------------------------------------------------------------ years that begin in March

  /** The days of the years of the era before year `yoe`. */
  function YearStart(yoe: int): int {
    365 * yoe + yoe / 4 - yoe / 100
  }

  /** The number of days of year `yoe` of an era; its February belongs to the next calendar year. */
  function YearLength(yoe: int): int {
    if IsLeapYear(yoe + 1) then 366 else 365
  }

  /** A year of the era by centuries, groups of four years, and years. */
  lemma YearParts(yoe: int, c: int, q: int, r: int)
    requires 0 <= yoe < 400 && c == yoe / 100 && q == (yoe - 100 * c) / 4 && r == yoe - 100 * c - 4 * q
    ensures 0 <= c <= 3 && 0 <= q <= 24 && 0 <= r <= 3
    ensures YearStart(yoe) == 36_524 * c + 1461 * q + 365 * r
    ensures YearLength(yoe) == 366 <==> r == 3 && (q != 24 || c == 3)
  {
    assert yoe == 100 * c + 4 * q + r;
    assert yoe / 4 == 25 * c + q;
    LeapParts(c, q, r);
  }

  lemma LeapParts(c: int, q: int, r: int)
    requires 0 <= c <= 3 && 0 <= q <= 24 && 0 <= r <= 3
    ensures IsLeapYear(100 * c + 4 * q + r + 1) <==> r == 3 && (q != 24 || c == 3)
  {
    var y := 100 * c + 4 * q + r + 1;
    assert y % 4 == (r + 1) % 4;
    if r == 3 {
      assert y % 100 == 0 <==> q == 24;
      assert q == 24 ==> y == 100 * (c + 1);
    }
  }

  /** The formula for the year of the era finds the year in which the day lies. */
  lemma YearOfEraCorrect(yoe: int, doy: int)
    requires 0 <= yoe < 400 && 0 <= doy < YearLength(yoe)
    ensures YearOfEra(YearStart(yoe) + doy) == yoe
  {
    var c := yoe / 100;
    var q := (yoe - 100 * c) / 4;
    var r := yoe - 100 * c - 4 * q;
    YearParts(yoe, c, q, r);
    YearFormula(c, q, r, doy);
  }

  lemma YearFormula(c: int, q: int, r: int, doy: int)
    requires 0 <= c <= 3 && 0 <= q <= 24 && 0 <= r <= 3 && 0 <= doy <= 365
    requires doy == 365 ==> r == 3 && (q != 24 || c == 3)
    ensures YearOfEra(36_524 * c + 1461 * q + 365 * r + doy) == 100 * c + 4 * q + r
  {
    var rest := 1461 * q + 365 * r + doy;
    var doe := 36_524 * c + rest;
    var last := if doe == 146_096 then 1 else 0;
    assert doe <= 146_096;
    assert doe / 146_096 == last;
    assert doe / 36_524 == c + last by { Quotient(doe, 36_524, c + last); }
    var u := if 24 * c + q + 365 * r + doy >= 1460 then 1 else 0;
    assert doe / 1460 == 25 * c + q + u by { Quotient(doe, 1460, 25 * c + q + u); }
    Quotient(doe - (25 * c + q + u) + c, 365, 100 * c + 4 * q + r);
  }

  lemma Quotient(a: int, b: int, n: int)
    requires b > 0 && n * b <= a < n * b + b
    ensures a / b == n
  {
    var m := a / b;
    assert m * b <= a < m * b + b;
    if m < n { Product(m + 1, n, b); }
    if n < m { Product(n + 1, m, b); }
  }

  lemma Product(a: int, b: int, w: int)
    requires a <= b && w >= 0
    ensures a * w <= b * w
  {}

  /** Every day of an era lies in one of its years. */
  lemma YearExists(doe: int) returns (yoe: int, doy: int)
    requires 0 <= doe < 146_097
    ensures 0 <= yoe < 400 && 0 <= doy < YearLength(yoe) && doe == YearStart(yoe) + doy
  {
    var c := if doe / 36_524 == 4 then 3 else doe / 36_524;
    var a := doe - 36_524 * c;
    var q := if a / 1461 == 25 then 24 else a / 1461;
    var b := a - 1461 * q;
    var r := if b / 365 == 4 then 3 else b / 365;
    doy := b - 365 * r;
    yoe := 100 * c + 4 * q + r;
    assert 0 <= c <= 3 && 0 <= a <= 36_524 && (a == 36_524 ==> c == 3);
    assert 0 <= q <= 24 && 0 <= b <= 1460;
    assert 0 <= r <= 3 && 0 <= doy <= 365;
    PartsBack(c, q, r);
    YearParts(yoe, c, q, r);
  }

  lemma PartsBack(c: int, q: int, r: int)
    requires 0 <= c <= 3 && 0 <= q <= 24 && 0 <= r <= 3
    ensures var yoe := 100 * c + 4 * q + r; yoe / 100 == c && (yoe - 100 * c) / 4 == q
  {}

  // ------------------------------------------------------------ months that begin in March

  /** The days of the year before month `mp`. */
  function MonthStart(mp: int): int {
    (153 * mp + 2) / 5
  }

  lemma MonthOfYear(mp: int, k: int)
    requires 0 <= mp <= 11 && 0 <= k < MonthStart(mp + 1) - MonthStart(mp)
    ensures (5 * (MonthStart(mp) + k) + 2) / 153 == mp
  {
    if mp == 0 {} else if mp == 1 {} else if mp == 2 {} else if mp == 3 {} else if mp == 4 {} else if mp == 5 {}
    else if mp == 6 {} else if mp == 7 {} else if mp == 8 {} else if mp == 9 {} else if mp == 10 {} else {}
  }

  lemma MonthLengths(y: int, mp: int)
    requires 0 <= mp <= 11
    ensures var m := if mp < 10 then mp + 3 else mp - 9;
            mp < 11 ==> MonthStart(mp + 1) - MonthStart(mp) == DaysInMonth(y, m)
    ensures MonthStart(0) == 0 && MonthStart(11) == 337 && MonthStart(12) == 367
  {
    if mp == 0 {} else if mp == 1 {} else if mp == 2 {} else if mp == 3 {} else if mp == 4 {} else if mp == 5 {}
    else if mp == 6 {} else if mp == 7 {} else if mp == 8 {} else if mp == 9 {} else if mp == 10 {} else {}
  }

  lemma MonthExists(doy: int) returns (mp: int)
    requires 0 <= doy <= 365
    ensures 0 <= mp <= 11 && MonthStart(mp) <= doy < MonthStart(mp + 1) && mp == (5 * doy + 2) / 153
  {
    mp := (5 * doy + 2) / 153;
    assert 0 <= mp <= 11;
  }

  // ------------------------------------------------------------ inverses

  lemma EraOf(y: int)
    ensures var era := y / 400; 0 <= y - era * 400 < 400
  {}

  /** Leap years recur with the eras. */
  lemma LeapInEra(era: int, yoe: int)
    ensures IsLeapYear(era * 400 + yoe + 1) <==> IsLeapYear(yoe + 1)
  {
    var a, b := era * 400 + yoe + 1, yoe + 1;
    assert a == 4 * (era * 100) + b && a == 100 * (era * 4) + b && a == 400 * era + b;
    SameRemainder(b, era * 100, 4);
    SameRemainder(b, era * 4, 100);
    SameRemainder(b, era, 400);
  }

  lemma SameRemainder(b: int, k: int, w: int)
    requires w > 0
    ensures (w * k + b) % w == b % w
  {
    var q := b / w;
    assert b == w * q + b % w;
    assert w * k + b == w * (k + q) + b % w by { assert w * (k + q) == w * k + w * q; }
    Remainder(w * k + b, w, k + q, b % w);
  }

  lemma Remainder(a: int, w: int, q: int, r: int)
    requires w > 0 && a == w * q + r && 0 <= r < w
    ensures a % w == r
  {
    Quotient(a, w, q);
  }

  function MarchMonth(month: int): int {
    if month > 2 then month - 3 else month + 9
  }

  function MarchYear(date: Date): int {
    if date.month <= 2 then date.year - 1 else date.year
  }

  /** A date by its year and month counted from March. */
  function FromMarch(y: int, mp: int, day: int): Date {
    var m := if mp < 10 then mp + 3 else mp - 9;
    Date(if m <= 2 then y + 1 else y, m, day)
  }

  lemma DaysByParts(date: Date)
    ensures var y := MarchYear(date);
            var yoe := y - y / 400 * 400;
            DaysFromCivil(date) ==
              y / 400 * 146_097 + YearStart(yoe) + MonthStart(MarchMonth(date.month)) + date.day - 1 - 719_468
  {}

  lemma CivilByParts(days: int, era: int, yoe: int, doy: int, mp: int)
    requires 0 <= yoe < 400 && 0 <= doy < YearLength(yoe) && 0 <= mp <= 11 && MonthStart(mp) <= doy < MonthStart(mp + 1)
    requires days + 719_468 == era * 146_097 + YearStart(yoe) + doy
    ensures CivilFromDays(days) == FromMarch(era * 400 + yoe, mp, doy - MonthStart(mp) + 1)
  {
    hide YearOfEra, YearLength, IsLeapYear;
    YearBound(yoe, doy);
    Quotient(days + 719_468, 146_097, era);
    YearOfEraCorrect(yoe, doy);
    MonthOfYear(mp, doy - MonthStart(mp));
  }

  lemma DayOfYearBound(date: Date, yoe: int)
    requires ValidDate(date) && (date.month <= 2 ==> (IsLeapYear(yoe + 1) <==> IsLeapYear(date.year)))
    ensures var mp := MarchMonth(date.month);
            && 0 <= MonthStart(mp) + date.day - 1 < YearLength(yoe)
            && 0 <= date.day - 1 < MonthStart(mp + 1) - MonthStart(mp)
  {
    MonthLengths(date.year, MarchMonth(date.month));
  }

  lemma YearBound(yoe: int, doy: int)
    requires 0 <= yoe < 400 && 0 <= doy < YearLength(yoe)
    ensures 0 <= YearStart(yoe) + doy < 146_097
  {
    var c := yoe / 100;
    var q := (yoe - 100 * c) / 4;
    YearParts(yoe, c, q, yoe - 100 * c - 4 * q);
  }

  /** The day number of a valid date leads back to the date. */
  lemma CivilOfDays(date: Date)
    requires ValidDate(date)
    ensures CivilFromDays(DaysFromCivil(date)) == date
  {
    hide CivilFromDays, DaysFromCivil, IsLeapYear, DaysInMonth, YearStart, MonthStart, YearLength;
    var y := MarchYear(date);
    var era := y / 400;
    var yoe := y - era * 400;
    EraOf(y);
    LeapInEra(era, yoe);
    DayOfYearBound(date, yoe);
    DaysByParts(date);
    CivilByParts(DaysFromCivil(date), era, yoe, MonthStart(MarchMonth(date.month)) + date.day - 1,
      MarchMonth(date.month));
  }

  lemma MarchValid(y: int, era: int, yoe: int, doy: int, mp: int)
    requires y == era * 400 + yoe && 0 <= yoe < 400 && 0 <= doy < YearLength(yoe)
    requires 0 <= mp <= 11 && MonthStart(mp) <= doy < MonthStart(mp + 1)
    ensures ValidDate(FromMarch(y, mp, doy - MonthStart(mp) + 1))
  {
    MonthLengths(y, mp);
    LeapInEra(era, yoe);
  }

  /** Every day number is that of a valid date. */
  lemma DaysOfCivil(days: int)
    ensures ValidDate(CivilFromDays(days)) && DaysFromCivil(CivilFromDays(days)) == days
  {
    hide CivilFromDays, DaysFromCivil, ValidDate, YearStart, MonthStart, YearLength;
    var z := days + 719_468;
    var era := z / 146_097;
    var yoe, doy := YearExists(z - era * 146_097);
    YearShort(yoe);
    var mp := MonthExists(doy);
    CivilByParts(days, era, yoe, doy, mp);
    MarchValid(era * 400 + yoe, era, yoe, doy, mp);
    DaysByParts(CivilFromDays(days));
    Quotient(era * 400 + yoe, 400, era);
  }

  lemma YearShort(yoe: int)
    ensures YearLength(yoe) <= 366
  {}

  // ------------------------------------------------------------ the calendar

  function NextDay(d: Date): Date {
    if d.day < DaysInMonth(d.year, d.month) then Date(d.year, d.month, d.day + 1)
    else if d.month < 12 then Date(d.year, d.month + 1, 1)
    else Date(d.year + 1, 1, 1)
  }

  /** Day numbers count the days of the calendar: one more for each next day, and 0 on 1970-01-01. */
  lemma NextDayIsOneMore(d: Date)
    requires ValidDate(d)
    ensures ValidDate(NextDay(d)) && DaysFromCivil(NextDay(d)) == DaysFromCivil(d) + 1
    ensures DaysFromCivil(Date(1970, 1, 1)) == 0
  {
    hide DaysFromCivil, IsLeapYear, YearStart;
    MonthLengths(d.year, MarchMonth(d.month));
    DaysByMarch(d);
    DaysByMarch(NextDay(d));
    if d.month == 2 {
      NewMarchYear(d.year - 1);
    }
    Epoch();
  }

  lemma Epoch()
    ensures DaysFromCivil(Date(1970, 1, 1)) == 0
  {}

  lemma DaysByMarch(date: Date)
    ensures DaysFromCivil(date) ==
      MarchDays(MarchYear(date)) + MonthStart(MarchMonth(date.month)) + date.day - 1 - 719_468
  {}

  /** The year that begins in March is as long as its February says. */
  lemma NewMarchYear(y: int)
    ensures var length := if IsLeapYear(y + 1) then 366 else 365;
            MarchDays(y + 1) == MarchDays(y) + length
  {
    var era := y / 400;
    var yoe := y - era * 400;
    LeapInEra(era, yoe);
    var c := yoe / 100;
    var q := (yoe - 100 * c) / 4;
    var r := yoe - 100 * c - 4 * q;
    YearParts(yoe, c, q, r);
    if yoe < 399 {
      Quotient(y + 1, 400, era);
      assert r < 3 ==> (yoe + 1) / 4 == yoe / 4 && (yoe + 1) / 100 == yoe / 100;
      assert r == 3 && q < 24 ==> (yoe + 1) / 4 == yoe / 4 + 1 && (yoe + 1) / 100 == yoe / 100;
      assert r == 3 && q == 24 ==> (yoe + 1) / 4 == yoe / 4 + 1 && (yoe + 1) / 100 == yoe / 100 + 1;
    } else {
      Quotient(y + 1, 400, era + 1);
    }
  }

  /** The day number of the first of March, up to a constant. */
  function MarchDays(y: int): int {
    var era := y / 400;
    era * 146_097 + YearStart(y - era * 400)
  }
}
