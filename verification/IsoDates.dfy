/** ISO 8601 texts of dates alone, and of local times with their zone (time/parse.rs). */
module IsoDates {
  import opened Wrappers
  import opened TimeRange
  import opened Civil
  import opened Clocks
  import opened Dates
  import opened IsoText

  // ------------------------------------------------------------ dates

  /** Numbers are cut to 32 bits. */
  function Wrapped(n: Option<nat>): Option<nat> {
    if n.None? then None else Some(n.value % 0x1_0000_0000)
  }

  /** A number after its separator, padded to some width, or nothing. */
  function Part(separator: char, n: Option<nat>, width: nat): string {
    if n.None? then "" else [separator] + Pad(n.value, width)
  }

  lemma PartsParsed(separator: char, month: nat, mw: nat, day: Option<nat>, dw: nat)
    requires IsSeparator(separator) && month <= POS_INF && (day.Some? ==> day.value <= POS_INF)
    ensures MonthAndDay([separator] + Pad(month, mw) + Part(separator, day, dw)) ==
            Found((Wrapped(Some(month)), Wrapped(day), ""))
  {
    hide Pad, TakeNumber;
    var last := Part(separator, day, dw);
    var text := [separator] + Pad(month, mw) + last;
    assert text[1..] == Pad(month, mw) + last;
    NumberTaken(month, mw, last);
    if day.Some? {
      assert last[1..] == Pad(day.value, dw) + "";
      NumberTaken(day.value, dw, "");
    }
  }

  /** A year, a year and a month, or a year, a month and a day, in this order and with any of the three separators, are
    * read as such, the month and the day modulo 2 to the 32.
    */
  lemma DateParsed(year: int, separator: char, month: Option<nat>, mw: nat, day: Option<nat>, dw: nat)
    requires Abs(year) <= POS_INF && IsSeparator(separator) && (day.Some? ==> month.Some?)
    requires (month.Some? ==> month.value <= POS_INF) && (day.Some? ==> day.value <= POS_INF)
    ensures TryIso(YearText(year) + Part(separator, month, mw) + Part(separator, day, dw)) ==
            Found(DateSpec(year, Wrapped(month), Wrapped(day), None, None, None, false))
  {
    hide Pad, YearText, MonthAndDay, DigitRun, Value, SplitSign;
    var rest := Part(separator, month, mw) + Part(separator, day, dw);
    assert YearText(year) + Part(separator, month, mw) + Part(separator, day, dw) == YearText(year) + rest;
    YearTaken(year, rest);
    if month.Some? {
      assert rest == [separator] + Pad(month.value, mw) + Part(separator, day, dw);
      PartsParsed(separator, month.value, mw, day, dw);
    } else {
      assert rest == "";
      NoMonth();
    }
  }

  lemma NoMonth()
    ensures MonthAndDay("") == Found((None, None, ""))
  {}

  lemma MinuteTaken(minutes: nat, zone: string)
    requires minutes <= 59 && IsZone(zone)
    ensures TakeMinutes(Pad(minutes, 2) + zone) == Some((minutes, 0, 0, Minute, zone))
  {
    hide Pad, TakeNumber, TakeSeconds;
    NumberTaken(minutes, 2, zone);
  }

  /** A time of day without seconds is precise to the minute. */
  lemma MinutesOnly(hours: nat, minutes: nat, zone: string)
    requires hours <= 47 && minutes <= 59 && IsZone(zone)
    ensures ParseClock(Pad(hours, 2) + ":" + Pad(minutes, 2) + zone) == Some((At(hours, minutes, 0, 0, Minute), zone))
  {
    hide Pad, TakeNumber, TrimStart, TakeMinutes, IsZone;
    var rest := ":" + (Pad(minutes, 2) + zone);
    var text := Pad(hours, 2) + ":" + Pad(minutes, 2) + zone;
    assert text == Pad(hours, 2) + rest;
    PadPlain(hours, 2);
    StartSame(text);
    NumberTaken(hours, 2, rest);
    assert rest[1..] == Pad(minutes, 2) + zone;
    MinuteTaken(minutes, zone);
  }

  /** Letters in upper case are read as those in lower case. */
  lemma LettersLowered(i: nat)
    requires i < 26
    ensures Lower([('A' as int + i) as char]) == Lower([('a' as int + i) as char]) == [('a' as int + i) as char]
  {
    assert [('A' as int + i) as char][..0] == [] && [('a' as int + i) as char][..0] == [];
  }

  /** What is read as a time of day is one: hours below 48, minutes below 60 and seconds up to 60. */
  lemma ClockInRange(text: string)
    ensures ParseClock(text).Some? ==> ParseClock(text).value.0.At? && ValidClock(ParseClock(text).value.0)
  {
    hide TakeNumber, TrimStart, StripPrefix, TakeFraction;
    forall s ensures TakeFraction(s).0 <= 999 {
      FractionSmall(s);
    }
  }

  lemma FractionSmall(s: string)
    ensures TakeFraction(s).0 <= 999
  {
    forall digits: string | forall i | 0 <= i < |digits| :: IsDigit(digits[i]) ensures Millis(digits) <= 999 {
      ThreeDigits((digits + "000")[..3]);
    }
  }

  lemma ThreeDigits(s: string)
    requires |s| == 3 && forall i | 0 <= i < |s| :: IsDigit(s[i])
    ensures Value(s) <= 999
  {
    assert s[..2][..1] == s[..1] && s[..1][..0] == [];
    assert Value(s[..1]) <= 9 && Value(s[..2]) <= 99;
  }

  // ------------------------------------------------------------ zones

  /** A zone ahead of UTC has the sign `+`; hours and minutes have two digits each. */
  function ZoneText(ahead: bool, hours: nat, colon: bool, minutes: nat): string {
    [if ahead then '+' else '-'] + Pad(hours, 2) + (if colon then ":" else "") + Pad(minutes, 2)
  }

  function ZoneMinutes(ahead: bool, hours: nat, minutes: nat): int {
    if ahead then 60 * hours + minutes else -(60 * hours + minutes)
  }

  lemma {:induction false} OffsetAll(s: string, limit: nat)
    requires |s| <= limit && forall i | 0 <= i < |s| :: IsDigit(s[i]) || s[i] == ':'
    ensures OffsetChars(s, limit) == s
  {
    if s != [] { OffsetAll(s[1..], limit - 1); }
  }

  lemma {:induction false} DigitsAppend(a: string, b: string)
    ensures OnlyDigits(a + b) == OnlyDigits(a) + OnlyDigits(b)
  {
    if b == [] {
      assert a + b == a;
    } else {
      assert (a + b)[..|a + b| - 1] == a + b[..|b| - 1];
      DigitsAppend(a, b[..|b| - 1]);
    }
  }

  lemma {:induction false} DigitsKept(s: string)
    requires forall i | 0 <= i < |s| :: IsDigit(s[i])
    ensures OnlyDigits(s) == s
  {
    if s != [] { DigitsKept(s[..|s| - 1]); }
  }

  lemma ColonDropped()
    ensures OnlyDigits(":") == "" && OnlyDigits("") == ""
  {
    assert ":"[..0] == "";
  }

  lemma TwoDigits(n: nat)
    requires n < 100
    ensures |Pad(n, 2)| == 2 && (forall i | 0 <= i < 2 :: IsDigit(Pad(n, 2)[i])) && Value(Pad(n, 2)) == n
  {
    PadRead(n, 2);
    assert Power(2) == 100 by { assert Power(1) == 10; }
    PadExact(n, 2);
  }

  /** A zone is read with its sign. */
  lemma ZoneRead(ahead: bool, hours: nat, colon: bool, minutes: nat)
    requires hours < 100 && minutes < 100
    ensures ParseTz(ZoneText(ahead, hours, colon, minutes)) == (Some(ZoneMinutes(ahead, hours, minutes)), "")
    ensures IsZone(ZoneText(ahead, hours, colon, minutes))
  {
    hide Pad, Value, OnlyDigits, OffsetChars, TrimStart;
    var h, m, middle := Pad(hours, 2), Pad(minutes, 2), if colon then ":" else "";
    var zone := ZoneText(ahead, hours, colon, minutes);
    TwoDigits(hours);
    TwoDigits(minutes);
    assert zone[1..] == h + middle + m;
    StartSame(zone);
    OffsetAll(h + middle + m, 5);
    DigitsAppend(h + middle, m);
    DigitsAppend(h, middle);
    DigitsKept(h);
    DigitsKept(m);
    ColonDropped();
    assert OnlyDigits(h + middle + m) == h + m;
    assert (h + m)[..2] == h && (h + m)[2..] == m;
    assert zone[1 + |h + middle + m|..] == "";
    assert "z"[0] == 'z' && "utc"[0] == 'u' && "gmt"[0] == 'g' && "jst"[0] == 'j';
  }

  /** The zones that are known by name, however far from the time they are: UTC under three names, and Japan. */
  lemma NamedZones(blanks: string, rest: string)
    requires forall i | 0 <= i < |blanks| :: IsBlank(blanks[i])
    ensures ParseTz(blanks + "z" + rest) == (Some(0), rest)
    ensures ParseTz(blanks + "utc" + rest) == ParseTz(blanks + "gmt" + rest) == (Some(0), rest)
    ensures ParseTz(blanks + "jst" + rest) == (Some(ZoneMinutes(true, 9, 0)), rest)
  {
    NamedZone(blanks, "z", rest);
    NamedZone(blanks, "utc", rest);
    NamedZone(blanks, "gmt", rest);
    NamedZone(blanks, "jst", rest);
    assert "z"[0] == 'z' && "utc"[0] == 'u' && "gmt"[0] == 'g' && "jst"[0] == 'j';
  }

  lemma NamedZone(blanks: string, name: string, rest: string)
    requires (forall i | 0 <= i < |blanks| :: IsBlank(blanks[i])) && name != [] && !IsBlank(name[0])
    ensures var t := TrimStart(blanks + name + rest);
            t == name + rest && StartsWith(t, name) && t[|name|..] == rest && t[0] == name[0]
  {
    assert blanks + name + rest == blanks + (name + rest);
    StartPadded(blanks, name + rest);
    StartSame(name + rest);
  }

  // ------------------------------------------------------------ local times

  /** The tick as a clock shows it that is so many minutes ahead of UTC, with the zone. */
  function LocalText(t: int, ahead: bool, hours: nat, minutes: nat): string {
    var c := FromTick(t + ZoneMinutes(ahead, hours, minutes) * TICKS_PER_MINUTE);
    TickPrintable(t + ZoneMinutes(ahead, hours, minutes) * TICKS_PER_MINUTE);
    DateText(c) + "T" + TimeText(c) + ZoneText(ahead, hours, true, minutes)
  }

  /** No overflow, at the local time and at the tick itself. */
  predicate LocalFits(t: int, offset: int) {
    var local := t + offset * TICKS_PER_MINUTE;
    var len := LengthOf(PrecisionFor(local % TICKS_PER_SECOND));
    Fits(local / TICKS_PER_DAY * TICKS_PER_DAY) && Fits(local) && Fits(local + len) && Fits(t) && Fits(t + len)
  }

  lemma LocalStart(t: int, c: CivilDateTime, offset: int)
    requires Printable(c)
    requires var local := t + offset * TICKS_PER_MINUTE;
             && DaysFromCivil(c.date) == local / TICKS_PER_DAY && c.millis == local % TICKS_PER_SECOND
             && DaysFromCivil(c.date) * TICKS_PER_DAY + OffsetAndLen(ClockOf(c)).0 == local
    ensures var d := DateSpec(c.date.year, Some(c.date.month), Some(c.date.day), None, Some(ClockOf(c)), Some(offset),
                              false);
            (Bounds(d, 0).Some? <==> LocalFits(t, offset)) && (Bounds(d, 0).Some? ==> Bounds(d, 0).value.0 == t)
  {
    hide DaysFromCivil;
    assert Date(c.date.year, c.date.month, c.date.day) == c.date;
  }

  lemma ZonePlain(ahead: bool, hours: nat, minutes: nat)
    requires hours < 100 && minutes < 100
    ensures Plain(ZoneText(ahead, hours, true, minutes))
    ensures var zone := ZoneText(ahead, hours, true, minutes); zone != [] && IsDigit(zone[|zone| - 1])
  {
    hide Pad;
    TwoDigits(hours);
    TwoDigits(minutes);
    PadPlain(hours, 2);
    PadPlain(minutes, 2);
  }

  lemma LowerLocal(c: CivilDateTime, zone: string)
    requires Printable(c) && Plain(zone) && zone != [] && IsDigit(zone[|zone| - 1])
    ensures var text := DateText(c) + "T" + TimeText(c) + zone;
            && Trim(Lower(text)) == DateText(c) + "t" + TimeText(c) + zone && Trim(text) == text
            && text != "-inf" && text != "+inf" && text != "inf"
  {
    hide DateText, TimeText, Trim, TrimStart, Lower;
    var d, m := DateText(c), TimeText(c);
    DatePlain(c);
    TimePlain(c);
    LowerAppend(d + "T" + m, zone);
    LowerAppend(d + "T", m);
    LowerAppend(d, "T");
    LowerSame(d);
    LowerSame(m);
    LowerSame(zone);
    LowerLetters();
    TrimSame(d + "t" + m + zone);
    var text := d + "T" + m + zone;
    TrimSame(text);
    assert text[|text| - 1] == zone[|zone| - 1];
    assert "-inf"[3] == 'f' && "+inf"[3] == 'f' && "inf"[2] == 'f';
  }

  lemma LocalFields(c: CivilDateTime, offset: int)
    requires Printable(c) && InCalendar(c)
    ensures Validate(DateSpec(c.date.year, Some(c.date.month), Some(c.date.day), None, Some(ClockOf(c)), Some(offset),
                              false))
  {}

  /** A tick written as a local time, with the zone behind it, parses back to the tick: what a zone is ahead is taken
    * off,
    * and what it is behind is added. It fails only when 64 bits overflow.
    */
  lemma LocalRoundTrip(t: int, ahead: bool, hours: nat, minutes: nat)
    requires hours < 100 && minutes < 100 && Fits(t + ZoneMinutes(ahead, hours, minutes) * TICKS_PER_MINUTE)
    ensures ParseIso(LocalText(t, ahead, hours, minutes)) ==
            if LocalFits(t, ZoneMinutes(ahead, hours, minutes)) then Some(t) else None
  {
    hide FromTick, TryIso, Trim, Lower, DateText, TimeText, Bounds, Validate, OffsetAndLen, DaysFromCivil, LocalFits,
      InCalendar, ParseTz, ZoneText, ZoneMinutes, Plain, IsDigit, IsZone, ClockOf;
    var offset, zone := ZoneMinutes(ahead, hours, minutes), ZoneText(ahead, hours, true, minutes);
    var c := FromTick(t + offset * TICKS_PER_MINUTE);
    TickFields(t + offset * TICKS_PER_MINUTE);
    ZoneRead(ahead, hours, true, minutes);
    ZonePlain(ahead, hours, minutes);
    LowerLocal(c, zone);
    IsoParsed(c, zone, offset);
    LocalFields(c, offset);
    LocalStart(t, c, offset);
  }

  // ------------------------------------------------------------ blanks

  predicate Blank(s: string) {
    forall i | 0 <= i < |s| :: IsBlank(s[i])
  }

  lemma {:induction false} StartPadded(a: string, s: string)
    requires Blank(a)
    ensures TrimStart(a + s) == TrimStart(s)
  {
    if a == [] {
      assert a + s == s;
    } else {
      assert (a + s)[1..] == a[1..] + s;
      StartPadded(a[1..], s);
    }
  }

  lemma {:induction false} EndPadded(s: string, b: string)
    requires Blank(b)
    ensures TrimEnd(s + b) == TrimEnd(s)
  {
    if b == [] {
      assert s + b == s;
    } else {
      assert (s + b)[..|s + b| - 1] == s + b[..|b| - 1];
      EndPadded(s, b[..|b| - 1]);
    }
  }

  lemma {:induction false} StartBefore(s: string, b: string)
    requires Blank(b)
    ensures TrimStart(s + b) == if TrimStart(s) == [] then [] else TrimStart(s) + b
  {
    if s == [] {
      StartPadded(b, []);
      assert s + b == b == b + [];
    } else if IsBlank(s[0]) {
      assert (s + b)[1..] == s[1..] + b;
      StartBefore(s[1..], b);
    }
  }

  lemma TrimPadded(a: string, s: string, b: string)
    requires Blank(a) && Blank(b)
    ensures Trim(a + s + b) == Trim(s)
  {
    hide TrimStart, TrimEnd;
    assert a + s + b == a + (s + b);
    StartPadded(a, s + b);
    StartBefore(s, b);
    EndPadded(TrimStart(s), b);
  }

  /** Blanks around a text change nothing. */
  lemma BlanksIgnored(a: string, s: string, b: string)
    requires Blank(a) && Blank(b)
    ensures ParseIso(a + s + b) == ParseIso(s)
  {
    hide Trim, Lower, TryIso;
    TrimPadded(a, s, b);
    LowerAppend(a + s, b);
    LowerAppend(a, s);
    LowerSame(a);
    LowerSame(b);
    TrimPadded(a, Lower(s), b);
  }
}
