/** ISO 8601 text of ticks: what is printed parses back to the same tick (time/mod.rs, the ISO path
  * of time/parse.rs, and the bounds of time/expr.rs).
  */
module IsoText {
  import opened Wrappers
  import opened TimeRange
  import opened Civil
  import opened Clocks
  import opened Dates

  datatype CivilDateTime = CivilDateTime(date: Date, hour: int, minute: int, second: int, millis: int)

  /** The UTC reading of a tick. */
  function FromTick(t: int): CivilDateTime {
    var days, rem := t / TICKS_PER_DAY, t % TICKS_PER_DAY;
    CivilDateTime(CivilFromDays(days), rem / TICKS_PER_HOUR, rem % TICKS_PER_HOUR / TICKS_PER_MINUTE,
                  rem % TICKS_PER_MINUTE / TICKS_PER_SECOND, rem % TICKS_PER_SECOND)
  }

  // ------------------------------------------------------------ printing

  function Digit(n: nat): char
    requires n < 10
  {
    (n + '0' as int) as char
  }

  function Digits(n: nat): string {
    if n < 10 then [Digit(n)] else Digits(n / 10) + [Digit(n % 10)]
  }

  /** At least `width` digits, with leading zeros. */
  function Pad(n: nat, width: nat): string {
    if width == 0 || |Digits(n)| >= width then Digits(n) else "0" + Pad(n, width - 1)
  }

  function Abs(n: int): nat {
    if n < 0 then -n else n
  }

  /** Four digits for the years 0 to 9999, otherwise a sign and at least six. */
  function YearText(y: int): string {
    if 0 <= y <= 9999 then Pad(y, 4) else (if y < 0 then "-" else "+") + Pad(Abs(y), 6)
  }

  /** The fields are not negative. */
  predicate Printable(c: CivilDateTime) {
    c.date.month >= 0 && c.date.day >= 0 && c.hour >= 0 && c.minute >= 0 && c.second >= 0 && c.millis >= 0
  }

  function TimeText(c: CivilDateTime): string
    requires Printable(c)
  {
    Pad(c.hour, 2) + ":" + Pad(c.minute, 2) + ":" + Pad(c.second, 2) +
      (if c.millis != 0 then "." + Pad(c.millis, 3) else "")
  }

  function DateText(c: CivilDateTime): string
    requires Printable(c)
  {
    YearText(c.date.year) + "-" + Pad(c.date.month, 2) + "-" + Pad(c.date.day, 2)
  }

  function CivilToIso(c: CivilDateTime): string
    requires Printable(c)
  {
    DateText(c) + "T" + TimeText(c) + "Z"
  }

  lemma TickPrintable(t: int)
    ensures Printable(FromTick(t))
  {
    DaysOfCivil(t / TICKS_PER_DAY);
  }

  function ToIso(t: int): string {
    if t == NEG_INF then "-inf"
    else if t == POS_INF then "+inf"
    else
      TickPrintable(t);
      CivilToIso(FromTick(t))
  }

  // ------------------------------------------------------------ parsing

  predicate IsDigit(c: char) {
    '0' <= c <= '9'
  }

  predicate IsBlank(c: char) {
    c == ' ' || c == '\t' || c == '\n' || c == '\r'
  }

  function TrimStart(s: string): string {
    if s != [] && IsBlank(s[0]) then TrimStart(s[1..]) else s
  }

  function TrimEnd(s: string): string {
    if s != [] && IsBlank(s[|s| - 1]) then TrimEnd(s[..|s| - 1]) else s
  }

  function Trim(s: string): string {
    TrimEnd(TrimStart(s))
  }

  function LowerChar(c: char): char {
    if 'A' <= c <= 'Z' then (c as int + 32) as char else c
  }

  function Lower(s: string): string {
    if s == [] then [] else Lower(s[..|s| - 1]) + [LowerChar(s[|s| - 1])]
  }

  /** The number of leading digits. */
  function DigitRun(s: string): (n: nat)
    ensures n <= |s| && (forall i | 0 <= i < n :: IsDigit(s[i])) && (n < |s| ==> !IsDigit(s[n]))
  {
    if s == [] || !IsDigit(s[0]) then 0 else 1 + DigitRun(s[1..])
  }

  function Value(s: string): nat
    requires forall i | 0 <= i < |s| :: IsDigit(s[i])
  {
    if s == [] then 0
    else
      assert IsDigit(s[|s| - 1]);
      10 * Value(s[..|s| - 1]) + (s[|s| - 1] as int - '0' as int)
  }

  /** Leading digits as a 64-bit integer, and the rest. */
  function TakeNumber(s: string): Option<(nat, string)> {
    var n := DigitRun(s);
    if n == 0 || Value(s[..n]) > POS_INF then None else Some((Value(s[..n]), s[n..]))
  }

  /** The cast of a 64-bit integer to 32 bits without sign. */
  function AsU32(n: nat): nat {
    n % 0x1_0000_0000
  }

  datatype Parsed<+T> = Found(value: T) | NotThis | Bad

  function StripPrefix(s: string, c: char): Option<string> {
    if s != [] && s[0] == c then Some(s[1..]) else None
  }

  /** Milliseconds from the digits after the point: three of them, filled up with zeros. */
  function Millis(digits: string): nat
    requires forall i | 0 <= i < |digits| :: IsDigit(digits[i])
  {
    Value((digits + "000")[..3])
  }

  /** The fraction of a second, if there is one with digits, and what precision that names. */
  function TakeFraction(s: string): (nat, Precision, string) {
    var frac := if StripPrefix(s, '.').Some? then StripPrefix(s, '.') else StripPrefix(s, ',');
    if frac.None? || DigitRun(frac.value) == 0 then (0, Second, s)
    else (Millis(frac.value[..DigitRun(frac.value)]), Millisecond, frac.value[DigitRun(frac.value)..])
  }

  /** Minute, second, milliseconds, the precision and the rest, after the colon that follows the hour. */
  function TakeMinutes(s: string): Option<(nat, nat, nat, Precision, string)> {
    var m := TakeNumber(s);
    if m.None? then None
    else
      var afterMinute := StripPrefix(m.value.1, ':');
      if afterMinute.None? then Some((m.value.0, 0, 0, Minute, m.value.1))
        else TakeSeconds(m.value.0, afterMinute.value)
  }

  function TakeSeconds(minute: nat, s: string): Option<(nat, nat, nat, Precision, string)> {
    var second := TakeNumber(s);
    if second.None? then None
    else
      var fraction := TakeFraction(second.value.1);
      Some((minute, second.value.0, fraction.0, fraction.1, fraction.2))
  }

  /** `15:30`, `15:30:05` or `15:30:05.250`, with hours up to 47. */
  function ParseClock(text: string): Option<(Clock, string)> {
    var h := TakeNumber(TrimStart(text));
    if h.None? || StripPrefix(h.value.1, ':').None? then None
    else
      var parts := TakeMinutes(StripPrefix(h.value.1, ':').value);
      if parts.None? then None
      else
        var (m, s, ms, precision, rest) := parts.value;
        var time := At(AsU32(h.value.0), AsU32(m), AsU32(s), ms, precision);
        if time.hour > 47 || time.minute > 59 || time.second > 60 then None else Some((time, rest))
  }

  function OnlyDigits(s: string): (r: string)
    ensures forall i | 0 <= i < |r| :: IsDigit(r[i])
  {
    if s == [] then [] else OnlyDigits(s[..|s| - 1]) + (if IsDigit(s[|s| - 1]) then [s[|s| - 1]] else [])
  }

  function OffsetChars(s: string, limit: nat): string {
    if s == [] || limit == 0 then []
    else if IsDigit(s[0]) || s[0] == ':' then [s[0]] + OffsetChars(s[1..], limit - 1)
    else OffsetChars(s[1..], limit)
  }

  predicate StartsWith(s: string, w: string) {
    |w| <= |s| && s[..|w|] == w
  }

  /** `z`, `utc`, `gmt`, `jst`, or a sign with two or four digits. */
  function ParseTz(s: string): (Option<int>, string) {
    var t := TrimStart(s);
    if StartsWith(t, "z") then (Some(0), t[1..])
    else if StartsWith(t, "utc") || StartsWith(t, "gmt") then (Some(0), t[3..])
    else if StartsWith(t, "jst") then (Some(540), t[3..])
    else if t != [] && (t[0] == '+' || t[0] == '-') then
      var chars := OffsetChars(t[1..], 5);
      var clean := OnlyDigits(chars);
      if (|clean| == 4 || |clean| == 2) && |chars| <= |t| - 1 then
        var v := Value(clean[..2]) * 60 + (if |clean| == 4 then Value(clean[2..]) else 0);
        (Some(if t[0] == '-' then -v else v), t[1 + |chars|..])
      else (None, s)
    else (None, s)
  }

  function ParseTrailingClock(text: string): Parsed<(Option<Clock>, Option<int>)> {
    var s := Trim(text);
    if s == [] then Found((None, None))
    else
      var body := if StripPrefix(s, 't').Some? then s[1..] else if StartsWith(s, "at ") then s[3..] else s;
      var clock := ParseClock(TrimStart(body));
      if clock.None? then Bad
      else
        var tz := ParseTz(clock.value.1);
        if Trim(tz.1) != [] then Bad else Found((Some(clock.value.0), tz.0))
  }

  predicate IsSeparator(c: char) {
    c == '-' || c == '/' || c == '.'
  }

  /** The month and the day, each after the separator. */
  function MonthAndDay(rest: string): Parsed<(Option<nat>, Option<nat>, string)> {
    if rest == [] || !IsSeparator(rest[0]) then Found((None, None, rest))
    else
      var m := TakeNumber(rest[1..]);
      if m.None? then Bad
      else if m.value.1 == [] || m.value.1[0] != rest[0] then Found((Some(AsU32(m.value.0)), None, m.value.1))
      else
        var d := TakeNumber(m.value.1[1..]);
        if d.None? then Bad else Found((Some(AsU32(m.value.0)), Some(AsU32(d.value.0)), d.value.1))
  }

  /** Whether there is a minus sign, and what follows the sign. */
  function SplitSign(s: string): (bool, string) {
    if StripPrefix(s, '-').Some? then (true, s[1..])
    else if StripPrefix(s, '+').Some? then (false, s[1..])
    else (false, s)
  }

  function Signed(neg: bool, n: nat): int {
    if neg then 0 - n as int else n
  }

  function TryIso(s: string): Parsed<DateSpec> {
    var (neg, body) := SplitSign(s);
    var ylen := DigitRun(body);
    var afterYear := body[ylen..];
    if ylen == 0 then NotThis
    else if afterYear != [] && !(IsSeparator(afterYear[0]) || afterYear[0] == 't' || afterYear[0] == ' ') then NotThis
    else if ylen < 3 && afterYear != [] then NotThis
    else if Value(body[..ylen]) > POS_INF then Bad
    else
      var year := Signed(neg, Value(body[..ylen]));
      match MonthAndDay(afterYear)
      case Bad => Bad
      case NotThis => NotThis
      case Found((month, day, rest)) =>
        if rest == [] then Found(DateSpec(year, month, day, None, None, None, false))
        else if day.None? then NotThis
        else
          match ParseTrailingClock(rest)
          case Bad => Bad
          case NotThis => NotThis
          case Found((clock, tz)) => Found(DateSpec(year, month, day, None, clock, tz, false))
  }

  function ParseIso(s: string): Option<int> {
    if Trim(s) == "-inf" then Some(NEG_INF)
    else if Trim(s) == "+inf" || Trim(s) == "inf" then Some(POS_INF)
    else
      match TryIso(Trim(Lower(s)))
      case Found(spec) => if Validate(spec) && Bounds(spec, 0).Some? then Some(Bounds(spec, 0).value.0) else None
      case _ => None
  }

  // ------------------------------------------------------------ digits

  lemma {:induction false} DigitsRead(n: nat)
    ensures Digits(n) != [] && (forall i | 0 <= i < |Digits(n)| :: IsDigit(Digits(n)[i])) && Value(Digits(n)) == n
  {
    if n < 10 {
      assert [Digit(n)][..0] == [];
    } else {
      DigitsRead(n / 10);
      assert Digits(n)[..|Digits(n)| - 1] == Digits(n / 10);
    }
  }

  lemma {:induction false} LeadingZero(s: string)
    requires forall i | 0 <= i < |s| :: IsDigit(s[i])
    ensures Value("0" + s) == Value(s)
  {
    if s == [] {
      assert ("0" + s)[..0] == [];
    } else {
      assert ("0" + s)[..|s|] == "0" + s[..|s| - 1];
      LeadingZero(s[..|s| - 1]);
    }
  }

  lemma {:induction false} PadRead(n: nat, width: nat)
    ensures |Pad(n, width)| >= width && |Pad(n, width)| >= 1
    ensures (forall i | 0 <= i < |Pad(n, width)| :: IsDigit(Pad(n, width)[i])) && Value(Pad(n, width)) == n
  {
    DigitsRead(n);
    if width > 0 && |Digits(n)| < width {
      PadRead(n, width - 1);
      LeadingZero(Pad(n, width - 1));
    }
  }

  lemma {:induction false} DigitsSize(n: nat, width: nat)
    requires width > 0 && n < Power(width)
    ensures |Digits(n)| <= width
  {
    if n >= 10 {
      DigitsSize(n / 10, width - 1);
    }
  }

  function Power(k: nat): nat {
    if k == 0 then 1 else 10 * Power(k - 1)
  }

  lemma {:induction false} PadExact(n: nat, width: nat)
    requires width > 0 && n < Power(width)
    ensures |Pad(n, width)| == width
  {
    DigitsSize(n, width);
    PadFills(n, width);
  }

  lemma {:induction false} PadFills(n: nat, width: nat)
    requires |Digits(n)| <= width
    ensures |Pad(n, width)| == width
  {
    if |Digits(n)| < width { PadFills(n, width - 1); }
  }

  lemma {:induction false} RunOf(digits: string, rest: string)
    requires (forall i | 0 <= i < |digits| :: IsDigit(digits[i])) && (rest == [] || !IsDigit(rest[0]))
    ensures DigitRun(digits + rest) == |digits|
  {
    var s := digits + rest;
    assert forall i | 0 <= i < |digits| :: s[i] == digits[i];
    assert rest != [] ==> s[|digits|] == rest[0];
  }

  /** A padded number is taken whole. */
  lemma NumberTaken(n: nat, width: nat, rest: string)
    requires n <= POS_INF && (rest == [] || !IsDigit(rest[0]))
    ensures TakeNumber(Pad(n, width) + rest) == Some((n, rest))
    ensures DigitRun(Pad(n, width) + rest) == |Pad(n, width)|
  {
    var digits := Pad(n, width);
    PadRead(n, width);
    RunOf(digits, rest);
    assert (digits + rest)[..|digits|] == digits && (digits + rest)[|digits|..] == rest;
  }

  // ------------------------------------------------------------ lowercase and blanks

  lemma {:induction false} LowerAppend(a: string, b: string)
    ensures Lower(a + b) == Lower(a) + Lower(b)
  {
    if b == [] {
      assert a + b == a;
    } else {
      assert (a + b)[..|a + b| - 1] == a + b[..|b| - 1];
      LowerAppend(a, b[..|b| - 1]);
    }
  }

  lemma {:induction false} LowerSame(s: string)
    requires forall i | 0 <= i < |s| :: !('A' <= s[i] <= 'Z')
    ensures Lower(s) == s
  {
    if s != [] { LowerSame(s[..|s| - 1]); }
  }

  /** A text that neither begins nor ends with a blank is its own trimming. */
  lemma TrimSame(s: string)
    requires s != [] ==> !IsBlank(s[0]) && !IsBlank(s[|s| - 1])
    ensures Trim(s) == s && TrimStart(s) == s
  {}

  // ------------------------------------------------------------ the round trip

  predicate InCalendar(c: CivilDateTime) {
    ValidDate(c.date) && 0 <= c.hour < 24 && 0 <= c.minute < 60 && 0 <= c.second < 60 && 0 <= c.millis < 1000
  }

  /** What a clock may show: hours into the next day, and leap seconds. */
  predicate InClock(c: CivilDateTime) {
    0 <= c.hour <= 47 && 0 <= c.minute <= 59 && 0 <= c.second <= 60 && 0 <= c.millis < 1000
  }

  /** Milliseconds are printed when there are some. */
  function PrecisionFor(millis: int): Precision {
    if millis != 0 then Millisecond else Second
  }

  function ClockOf(c: CivilDateTime): Clock
    requires Printable(c)
  {
    At(c.hour, c.minute, c.second, c.millis, PrecisionFor(c.millis))
  }

  /** Digits, signs, colons and points. */
  predicate Plain(s: string) {
    forall i | 0 <= i < |s| :: IsDigit(s[i]) || s[i] in {'-', '+', ':', '.'}
  }

  lemma PadPlain(n: nat, width: nat)
    ensures Plain(Pad(n, width)) && Pad(n, width) != [] && IsDigit(Pad(n, width)[0])
  {
    PadRead(n, width);
  }

  lemma TimePlain(c: CivilDateTime)
    requires Printable(c)
    ensures Plain(TimeText(c)) && TimeText(c) != [] && IsDigit(TimeText(c)[0])
  {
    hide Pad;
    PadPlain(c.hour, 2);
    PadPlain(c.minute, 2);
    PadPlain(c.second, 2);
    if c.millis != 0 { PadPlain(c.millis, 3); }
  }

  lemma YearPlain(y: int)
    ensures Plain(YearText(y)) && YearText(y) != []
  {
    hide Pad;
    if 0 <= y <= 9999 { PadPlain(y, 4); } else { PadPlain(Abs(y), 6); }
  }

  lemma DatePlain(c: CivilDateTime)
    requires Printable(c)
    ensures Plain(DateText(c)) && DateText(c) != []
  {
    hide Pad, YearText;
    YearPlain(c.date.year);
    PadPlain(c.date.month, 2);
    PadPlain(c.date.day, 2);
  }

  /** Lowercasing a printed date only changes the two letters. */
  lemma LowerIso(c: CivilDateTime)
    requires Printable(c)
    ensures Trim(Lower(CivilToIso(c))) == DateText(c) + "t" + TimeText(c) + "z"
    ensures Trim(CivilToIso(c)) == CivilToIso(c)
  {
    hide DateText, TimeText, Trim, TrimStart, Lower;
    var d, m := DateText(c), TimeText(c);
    DatePlain(c);
    TimePlain(c);
    LowerAppend(d + "T" + m, "Z");
    LowerAppend(d + "T", m);
    LowerAppend(d, "T");
    LowerSame(d);
    LowerSame(m);
    LowerLetters();
    TrimSame(d + "t" + m + "z");
    TrimSame(CivilToIso(c));
  }

  lemma LowerLetters()
    ensures Lower("T") == "t" && Lower("Z") == "z"
  {
    assert "T"[..0] == [] && "Z"[..0] == [];
  }

  /** What may follow the time of day: it goes on neither with digits nor with a fraction or a colon. */
  predicate IsZone(zone: string) {
    zone != [] && !IsDigit(zone[0]) && zone[0] !in {'.', ',', ':'} && !IsBlank(zone[|zone| - 1])
  }

  lemma FractionParsed(ms: nat, zone: string)
    requires ms < 1000 && IsZone(zone)
    ensures TakeFraction((if ms != 0 then "." + Pad(ms, 3) else "") + zone) == (ms, PrecisionFor(ms), zone)
  {
    if ms != 0 {
      var digits := Pad(ms, 3);
      var s := "." + digits + zone;
      PadRead(ms, 3);
      PowerThree();
      PadExact(ms, 3);
      assert s[1..] == digits + zone;
      RunOf(digits, zone);
      assert (digits + zone)[..3] == digits && (digits + zone)[3..] == zone;
      assert (digits + "000")[..3] == digits;
    } else {
      assert "" + zone == zone;
    }
  }

  lemma PowerThree()
    ensures Power(3) == 1000
  {
    assert Power(1) == 10 && Power(2) == 100;
  }

  lemma MinutesParsed(c: CivilDateTime, zone: string)
    requires Printable(c) && InClock(c) && IsZone(zone)
    ensures var fraction := if c.millis != 0 then "." + Pad(c.millis, 3) else "";
            TakeMinutes(Pad(c.minute, 2) + (":" + (Pad(c.second, 2) + (fraction + zone)))) ==
              Some((c.minute, c.second, c.millis, PrecisionFor(c.millis), zone))
  {
    hide Pad, TakeNumber, TakeFraction;
    var fraction := if c.millis != 0 then "." + Pad(c.millis, 3) else "";
    var x3 := fraction + zone;
    var x2 := ":" + (Pad(c.second, 2) + x3);
    NumberTaken(c.minute, 2, x2);
    assert x2[1..] == Pad(c.second, 2) + x3;
    NumberTaken(c.second, 2, x3);
    FractionParsed(c.millis, zone);
  }

  /** The printed time of day parses to its fields. */
  lemma ClockParsed(c: CivilDateTime, zone: string)
    requires Printable(c) && InClock(c) && IsZone(zone)
    ensures ParseClock(TimeText(c) + zone) == Some((ClockOf(c), zone))
  {
    hide Pad, TakeNumber, TakeMinutes, TrimStart;
    var fraction := if c.millis != 0 then "." + Pad(c.millis, 3) else "";
    var x1 := ":" + (Pad(c.minute, 2) + (":" + (Pad(c.second, 2) + (fraction + zone))));
    var text := TimeText(c) + zone;
    assert text == Pad(c.hour, 2) + x1;
    PadPlain(c.hour, 2);
    StartSame(text);
    NumberTaken(c.hour, 2, x1);
    assert x1[1..] == Pad(c.minute, 2) + (":" + (Pad(c.second, 2) + (fraction + zone)));
    MinutesParsed(c, zone);
  }

  lemma StartSame(s: string)
    requires s != [] && !IsBlank(s[0])
    ensures TrimStart(s) == s
  {}

  lemma ZoneParsed()
    ensures ParseTz("z") == (Some(0), "") && Trim("") == ""
  {
    assert "z"[..1] == "z" && "z"[1..] == "";
  }

  lemma TrailingParsed(c: CivilDateTime, zone: string, offset: int)
    requires Printable(c) && InClock(c) && IsZone(zone) && ParseTz(zone) == (Some(offset), "")
    ensures ParseTrailingClock("t" + TimeText(c) + zone) == Found((Some(ClockOf(c)), Some(offset)))
  {
    hide TimeText, ParseClock, ParseTz, Trim, TrimStart;
    var text := "t" + TimeText(c) + zone;
    TimePlain(c);
    TrimSame(text);
    assert text[1..] == TimeText(c) + zone;
    StartSame(TimeText(c) + zone);
    ClockParsed(c, zone);
    ZoneParsed();
  }

  lemma MonthAndDayParsed(c: CivilDateTime, rest: string)
    requires Printable(c) && InCalendar(c) && rest != [] && !IsDigit(rest[0])
    ensures MonthAndDay("-" + Pad(c.date.month, 2) + "-" + Pad(c.date.day, 2) + rest) ==
      Found((Some(c.date.month), Some(c.date.day), rest))
  {
    hide Pad, TakeNumber;
    var x2 := "-" + (Pad(c.date.day, 2) + rest);
    var text := "-" + Pad(c.date.month, 2) + "-" + Pad(c.date.day, 2) + rest;
    assert text[1..] == Pad(c.date.month, 2) + x2;
    NumberTaken(c.date.month, 2, x2);
    assert x2[1..] == Pad(c.date.day, 2) + rest;
    NumberTaken(c.date.day, 2, rest);
  }

  /** The sign of a printed year. */
  lemma SignTaken(y: int, rest: string)
    ensures SplitSign(YearText(y) + rest) == (y < 0, Pad(Abs(y), if 0 <= y <= 9999 then 4 else 6) + rest)
  {
    hide Pad;
    var digits, s := Pad(Abs(y), if 0 <= y <= 9999 then 4 else 6), YearText(y) + rest;
    PadPlain(Abs(y), if 0 <= y <= 9999 then 4 else 6);
    if 0 <= y <= 9999 {
      assert s == digits + rest;
    } else {
      assert s[1..] == digits + rest;
    }
  }

  /** The year, with or without a sign, and what follows it. */
  lemma YearTaken(y: int, rest: string)
    requires rest == [] || !IsDigit(rest[0])
    ensures var (neg, body) := SplitSign(YearText(y) + rest);
            var ylen := DigitRun(body);
            neg == (y < 0) && ylen >= 3 && Value(body[..ylen]) == Abs(y) && body[ylen..] == rest
  {
    hide Pad, DigitRun, SplitSign, YearText;
    var width := if 0 <= y <= 9999 then 4 else 6;
    var digits := Pad(Abs(y), width);
    SignTaken(y, rest);
    PadRead(Abs(y), width);
    RunOf(digits, rest);
    assert (digits + rest)[..|digits|] == digits && (digits + rest)[|digits|..] == rest;
  }

  lemma IsoParsed(c: CivilDateTime, zone: string, offset: int)
    requires Printable(c) && InCalendar(c) && Abs(c.date.year) <= POS_INF
    requires IsZone(zone) && ParseTz(zone) == (Some(offset), "")
    ensures TryIso(DateText(c) + "t" + TimeText(c) + zone) ==
            Found(DateSpec(c.date.year, Some(c.date.month), Some(c.date.day), None, Some(ClockOf(c)), Some(offset),
                           false))
  {
    hide Pad, YearText, TimeText, MonthAndDay, ParseTrailingClock, DigitRun, Value, SplitSign, ParseTz;
    var last := "t" + TimeText(c) + zone;
    var rest := "-" + Pad(c.date.month, 2) + "-" + Pad(c.date.day, 2) + last;
    var text := DateText(c) + "t" + TimeText(c) + zone;
    assert text == YearText(c.date.year) + rest;
    YearTaken(c.date.year, rest);
    MonthAndDayParsed(c, last);
    TrailingParsed(c, zone, offset);
  }

  lemma YearSmall(days: int)
    requires -1_000_000_000_000 <= days <= 1_000_000_000_000
    ensures Abs(CivilFromDays(days).year) <= POS_INF
  {
    var z := days + 719_468;
    var era := z / 146_097;
    var yoe, doy := YearExists(z - era * 146_097);
    YearShort(yoe);
    var mp := MonthExists(doy);
    CivilByParts(days, era, yoe, doy, mp);
    assert -10_000_000 <= era <= 10_000_000;
  }

  lemma TickFields(t: int)
    requires NEG_INF <= t <= POS_INF
    ensures var c := FromTick(t);
            && InCalendar(c) && Printable(c) && Abs(c.date.year) <= POS_INF
            && DaysFromCivil(c.date) * TICKS_PER_DAY + OffsetAndLen(ClockOf(c)).0 == t
            && DaysFromCivil(c.date) == t / TICKS_PER_DAY && c.millis == t % TICKS_PER_SECOND
  {
    hide CivilFromDays, DaysFromCivil, ValidDate;
    var days := t / TICKS_PER_DAY;
    DaysOfCivil(days);
    YearSmall(days);
    TickPrintable(t);
    ClockAdds(t % TICKS_PER_DAY);
    MillisOfDay(t);
  }

  lemma MillisOfDay(t: int)
    ensures t % TICKS_PER_DAY % TICKS_PER_SECOND == t % TICKS_PER_SECOND
  {
    var rem := t % TICKS_PER_DAY;
    var s := rem / TICKS_PER_SECOND;
    Quotient(t, TICKS_PER_SECOND, 86_400 * (t / TICKS_PER_DAY) + s);
  }

  lemma ClockAdds(rem: int)
    requires 0 <= rem < TICKS_PER_DAY
    ensures var h, m, s, ms := rem / TICKS_PER_HOUR, rem % TICKS_PER_HOUR / TICKS_PER_MINUTE,
      rem % TICKS_PER_MINUTE / TICKS_PER_SECOND, rem % TICKS_PER_SECOND;
            && 0 <= h < 24 && 0 <= m < 60 && 0 <= s < 60 && 0 <= ms < 1000
            && h * TICKS_PER_HOUR + m * TICKS_PER_MINUTE + s * TICKS_PER_SECOND + ms == rem
  {
    var h := rem / TICKS_PER_HOUR;
    var r1 := rem - h * TICKS_PER_HOUR;
    var m := r1 / TICKS_PER_MINUTE;
    var r2 := r1 - m * TICKS_PER_MINUTE;
    assert rem == (60 * h + m) * TICKS_PER_MINUTE + r2;
    Quotient(rem, TICKS_PER_MINUTE, 60 * h + m);
    var s := r2 / TICKS_PER_SECOND;
    var r3 := r2 - s * TICKS_PER_SECOND;
    assert rem == (3600 * h + 60 * m + s) * TICKS_PER_SECOND + r3;
    Quotient(rem, TICKS_PER_SECOND, 3600 * h + 60 * m + s);
  }

  /** No overflow: the day of the tick begins in range, and what is printed ends in range. */
  predicate Representable(t: int) {
    Fits(t / TICKS_PER_DAY * TICKS_PER_DAY) && Fits(t + LengthOf(PrecisionFor(t % TICKS_PER_SECOND)))
  }

  lemma ParsedStart(t: int, c: CivilDateTime)
    requires Printable(c) && Fits(t) && DaysFromCivil(c.date) == t / TICKS_PER_DAY && c.millis == t % TICKS_PER_SECOND
    requires DaysFromCivil(c.date) * TICKS_PER_DAY + OffsetAndLen(ClockOf(c)).0 == t
    ensures var d := DateSpec(c.date.year, Some(c.date.month), Some(c.date.day), None, Some(ClockOf(c)), Some(0),
      false);
            (Bounds(d, 0).Some? <==> Representable(t)) && (Bounds(d, 0).Some? ==> Bounds(d, 0).value.0 == t)
  {
    hide DaysFromCivil;
    assert Date(c.date.year, c.date.month, c.date.day) == c.date;
  }

  lemma CivilRoundTrip(t: int, c: CivilDateTime)
    requires Printable(c) && InCalendar(c) && Abs(c.date.year) <= POS_INF
    requires Fits(t) && DaysFromCivil(c.date) == t / TICKS_PER_DAY && c.millis == t % TICKS_PER_SECOND
    requires DaysFromCivil(c.date) * TICKS_PER_DAY + OffsetAndLen(ClockOf(c)).0 == t
    ensures ParseIso(CivilToIso(c)) == if Representable(t) then Some(t) else None
  {
    hide TryIso, Trim, Lower, CivilToIso, DateText, TimeText, Bounds, Validate, OffsetAndLen, DaysFromCivil, ValidDate,
      Representable;
    LowerIso(c);
    ZoneParsed();
    IsoParsed(c, "z", 0);
    IsoIsNotInfinite(c);
    ValidFields(c);
    ParsedStart(t, c);
  }

  /** What is printed for a tick parses back to the tick, for negative and expanded years too, exactly
    * when the computation stays within 64 bits.
    */
  lemma IsoRoundTrip(t: int)
    requires Fits(t)
    ensures ParseIso(ToIso(t)) == Some(t) <==> !IsFinite(t) || Representable(t)
  {
    if IsFinite(t) {
      hide ParseIso, FromTick, CivilToIso, OffsetAndLen, DaysFromCivil, InCalendar;
      TickFields(t);
      CivilRoundTrip(t, FromTick(t));
    } else {
      hide TryIso;
      TrimSame("-inf");
      TrimSame("+inf");
    }
  }

  /** Two ticks that do not parse back: the day of the first begins before the 64-bit range, and the second that is
    * printed for the other ends behind it. The last finite tick does parse back.
    */
  lemma EdgeTicksLost()
    ensures ParseIso(ToIso(NEG_INF + 1)) != Some(NEG_INF + 1)
    ensures ParseIso(ToIso(9_223_372_036_854_775_000)) != Some(9_223_372_036_854_775_000)
    ensures ParseIso(ToIso(POS_INF - 1)) == Some(POS_INF - 1)
  {
    hide ParseIso, ToIso;
    IsoRoundTrip(NEG_INF + 1);
    IsoRoundTrip(9_223_372_036_854_775_000);
    IsoRoundTrip(POS_INF - 1);
  }

  lemma ValidFields(c: CivilDateTime)
    requires Printable(c) && InCalendar(c)
    ensures Validate(DateSpec(c.date.year, Some(c.date.month), Some(c.date.day), None, Some(ClockOf(c)), Some(0),
      false))
  {}

  lemma IsoIsNotInfinite(c: CivilDateTime)
    requires Printable(c)
    ensures CivilToIso(c) != "-inf" && CivilToIso(c) != "+inf" && CivilToIso(c) != "inf"
  {
    var s := CivilToIso(c);
    assert s[|s| - 1] == 'Z';
    assert "-inf"[3] == 'f' && "+inf"[3] == 'f' && "inf"[2] == 'f';
  }
}
