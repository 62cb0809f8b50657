/** Printing and parsing instants as YYYYMMDD.HHMMSS.mmm (time.rs). */
module TimeMillis {
  import opened Results
  import opened Panics
  import opened Arith
  import opened Bytes
  import opened Text
  import Utf8
  import opened Calendar

  /** The years chrono's dates can hold. */
  const MIN_YEAR: int := -262143
  const MAX_YEAR: int := 262142

  /** The day number of 1970-01-01. */
  const EPOCH_DAY := 719162

  const SECONDS_IN_DAY := 86400

  datatype Stamp = Stamp(date: Date, hour: nat, minute: nat, second: nat)

  predicate ValidStamp(s: Stamp) {
    ValidDate(s.date) && MIN_YEAR <= s.date.year <= MAX_YEAR && s.hour < 24 && s.minute < 60 && s.second < 60
  }

  /** Seconds since the epoch of a UTC date and time. */
  function Timestamp(s: Stamp): int
    requires ValidDate(s.date)
  {
    (DayNumber(s.date) - EPOCH_DAY) * SECONDS_IN_DAY + s.hour * 3600 + s.minute * 60 + s.second
  }

  lemma ClockParts(inDay: nat)
    requires inDay < SECONDS_IN_DAY
    ensures inDay / 3600 < 24 && inDay / 3600 * 3600 + inDay / 60 % 60 * 60 + inDay % 60 == inDay
  {
    assert inDay / 60 / 60 == inDay / 3600;
  }

  function StampOf(secs: int): (s: Stamp)
    ensures ValidDate(s.date) && s.hour < 24 && s.minute < 60 && s.second < 60
    ensures Timestamp(s) == secs
  {
    var inDay := secs % SECONDS_IN_DAY;
    ClockParts(inDay);
    Stamp(DateOf(secs / SECONDS_IN_DAY + EPOCH_DAY), inDay / 3600, inDay / 60 % 60, inDay % 60)
  }

  /** Whole seconds and milliseconds, both truncated toward zero as in the source. */
  function Seconds(t: i64): int {
    TruncDiv(t, 1000)
  }

  function MillisPart(t: i64): (m: int)
    ensures -1000 < m < 1000 && t == 1000 * Seconds(t) + m
    ensures t >= 0 ==> m >= 0
  {
    TruncMod(t, 1000)
  }

  predicate InCalendar(t: i64) {
    MIN_YEAR <= StampOf(Seconds(t)).date.year <= MAX_YEAR
  }

  /** `{:03}` of a signed number: the sign counts towards the width. */
  function PadMillis(m: int): (s: string)
    requires -1000 < m < 1000
    ensures '.' !in s
  {
    assert Pow10(2) == 100 && Pow10(3) == 1000;
    if m >= 0 then Pad(m, 3)
    else if m > -100 then "-" + Pad(-m, 2)
    else "-" + Pad(-m, 3)
  }

  function DateText(d: Date): (s: string)
    requires ValidDate(d)
    ensures '.' !in s
  {
    assert Pow10(2) == 100;
    assert '.' !in Dec(if d.year < 0 then -d.year else d.year);
    DecInt(d.year) + Pad(d.month, 2) + Pad(d.day, 2)
  }

  function ClockText(s: Stamp): (r: string)
    requires s.hour < 24 && s.minute < 60 && s.second < 60
    ensures |r| == 6 && '.' !in r
  {
    assert Pow10(2) == 100;
    Pad(s.hour, 2) + Pad(s.minute, 2) + Pad(s.second, 2)
  }

  const INVALID := "<invalid-timestamp:"

  function Display(t: i64): string {
    var s := StampOf(Seconds(t));
    if InCalendar(t) then DateText(s.date) + ['.'] + (ClockText(s) + ['.'] + PadMillis(MillisPart(t)))
    else INVALID + DecInt(t) + ">"
  }

  const U32_MAX: nat := 0xffff_ffff
  const I32_MIN: int := -0x8000_0000
  const I32_MAX: int := 0x7fff_ffff

  /** The lengths the parser asks of its parts, in bytes. */
  predicate HasShape(parts: seq<string>) {
    |parts| == 3 && Utf8.Length(parts[0]) >= 8 && Utf8.Length(parts[1]) == 6 && Utf8.Length(parts[2]) == 3
  }

  function Parse(s: string): Outcome<i64> {
    var parts := Split(s, '.');
    if !HasShape(parts) then Failed
    else
      var fields :- ParseFields(parts[0], parts[1], parts[2]);
      if ValidStamp(fields.0) then
        TimestampFits(fields.0);
        Done(Timestamp(fields.0) * 1000 + fields.1)
      else Failed
  }

  /** The numbers in turn; each is cut out by its byte offsets when all before it have been read. */
  function ParseFields(date: string, clock: string, millis: string): (r: Outcome<(Stamp, int)>)
    requires Utf8.Length(date) >= 8 && Utf8.Length(clock) == 6 && Utf8.Length(millis) == 3
    ensures r.Done? ==> -1000 < r.value.1 < 1000
  {
    var d :- ParseDate(date);
    var c :- ParseClock(clock);
    var ms :- Try(ParseSigned(millis, I64_MIN, I64_MAX));
    ShortMillis(millis);
    Done((Stamp(d, c.0, c.1, c.2), ms))
  }

  function ParseDate(date: string): Outcome<Date>
    requires Utf8.Length(date) >= 8
  {
    var n := Utf8.Length(date);
    var yearText :- Utf8.Slice(date, 0, n - 4);
    var year :- Try(ParseSigned(yearText, I32_MIN, I32_MAX));
    var monthText :- Utf8.Slice(date, n - 4, n - 2);
    var month :- Try(ParseUnsigned(monthText, U32_MAX));
    var dayText :- Utf8.Slice(date, n - 2, n);
    var day :- Try(ParseUnsigned(dayText, U32_MAX));
    Done(Date(year, month, day))
  }

  function ParseClock(clock: string): Outcome<(nat, nat, nat)>
    requires Utf8.Length(clock) == 6
  {
    var hourText :- Utf8.Slice(clock, 0, 2);
    var hour :- Try(ParseUnsigned(hourText, U32_MAX));
    var minuteText :- Utf8.Slice(clock, 2, 4);
    var minute :- Try(ParseUnsigned(minuteText, U32_MAX));
    var secondText :- Utf8.Slice(clock, 4, 6);
    var second :- Try(ParseUnsigned(secondText, U32_MAX));
    Done((hour, minute, second))
  }

  lemma TimestampFits(s: Stamp)
    requires ValidStamp(s)
    ensures -10_000_000_000_000 <= Timestamp(s) <= 10_000_000_000_000
  {
    DayNumberWithinYear(s.date);
    assert -100_000_000 <= DaysBeforeYear(s.date.year) <= 100_000_000;
  }

  /** Three characters never parse to more than three digits. */
  lemma ShortMillis(s: string)
    requires |s| <= 3
    ensures var r := ParseSigned(s, I64_MIN, I64_MAX); r.Ok? ==> -1000 < r.value < 1000
  {
    var digits := if s != "" && (s[0] == '+' || s[0] == '-') then s[1..] else s;
    if AllDigits(digits) {
      SmallValue(digits);
      assert Pow10(0) == 1 && Pow10(1) == 10 && Pow10(2) == 100 && Pow10(3) == 1000;
    }
  }

  lemma {:induction false} SmallValue(s: string)
    requires AllDigits(s)
    ensures DigitsValue(s) < Pow10(|s|)
  {
    if s != "" {
      SmallValue(s[..|s| - 1]);
    }
  }

  // ---------------------------------------------------------------------------------------------

  lemma SplitThree(a: string, b: string, c: string)
    requires '.' !in a && '.' !in b && '.' !in c
    ensures Split(a + ['.'] + (b + ['.'] + c), '.') == [a, b, c]
  {
    SplitFront(a, '.', b + ['.'] + c);
    SplitFront(b, '.', c);
    SplitNone(c, '.');
  }

  lemma DateTextFields(d: Date)
    requires ValidDate(d) && MIN_YEAR <= d.year <= MAX_YEAR
    ensures var s, n := DateText(d), |DateText(d)|;
            && n >= 5
            && ParseSigned(s[..n - 4], I32_MIN, I32_MAX) == Ok(d.year)
            && ParseUnsigned(s[n - 4..n - 2], U32_MAX) == Ok(d.month)
            && ParseUnsigned(s[n - 2..], U32_MAX) == Ok(d.day)
  {
    assert Pow10(2) == 100;
    var s, n := DateText(d), |DateText(d)|;
    assert s[..n - 4] == DecInt(d.year) && s[n - 4..n - 2] == Pad(d.month, 2) && s[n - 2..] == Pad(d.day, 2);
    ParseDec(d.year, I32_MIN, I32_MAX);
    ParsePad(d.month, 2, U32_MAX);
    ParsePad(d.day, 2, U32_MAX);
  }

  lemma ClockTextFields(s: Stamp)
    requires s.hour < 24 && s.minute < 60 && s.second < 60
    ensures ParseUnsigned(ClockText(s)[0..2], U32_MAX) == Ok(s.hour)
    ensures ParseUnsigned(ClockText(s)[2..4], U32_MAX) == Ok(s.minute)
    ensures ParseUnsigned(ClockText(s)[4..6], U32_MAX) == Ok(s.second)
  {
    assert Pow10(2) == 100;
    var r := ClockText(s);
    assert r[0..2] == Pad(s.hour, 2) && r[2..4] == Pad(s.minute, 2) && r[4..6] == Pad(s.second, 2);
    ParsePad(s.hour, 2, U32_MAX);
    ParsePad(s.minute, 2, U32_MAX);
    ParsePad(s.second, 2, U32_MAX);
  }

  lemma MinusParses(n: int, width: nat)
    requires 0 <= n < Pow10(width) && 0 < width && n < 1000
    ensures ParseSigned("-" + Pad(n, width), I64_MIN, I64_MAX) == Ok(-n)
  {
    hide Pad, Pow10, DigitsValue;
    PadValue(n, width);
    var digits := Pad(n, width);
    assert ("-" + digits)[1..] == digits;
  }

  lemma PadMillisParses(m: int)
    requires -1000 < m < 1000
    ensures |PadMillis(m)| == 3 <==> m > -100
    ensures ParseSigned(PadMillis(m), I64_MIN, I64_MAX) == Ok(m)
  {
    assert Pow10(2) == 100 && Pow10(3) == 1000;
    hide Pad, Pow10;
    if m >= 0 {
      ParsePad(m, 3, I64_MAX);
      assert IsDigit(Pad(m, 3)[0]);
    } else {
      MinusParses(-m, if m > -100 then 2 else 3);
    }
  }

  lemma YearTextLength(y: int)
    ensures |DecInt(y)| >= 4 <==> y >= 1000 || y <= -100
  {
    assert Pow10(2) == 100 && Pow10(3) == 1000;
    DecLength(if y < 0 then -y else y, 2);
    DecLength(if y < 0 then -y else y, 3);
  }

  /** The printed instants that parse back: all of chrono's range, save short years and -100 ms and below. */
  predicate RoundTrips(t: i64) {
    var year := StampOf(Seconds(t)).date.year;
    InCalendar(t) && MillisPart(t) > -100 && (year >= 1000 || year <= -100)
  }

  lemma TextIsAscii(s: Stamp, m: int)
    requires ValidStamp(s) && -1000 < m < 1000
    ensures Utf8.IsAscii(DateText(s.date)) && Utf8.IsAscii(ClockText(s)) && Utf8.IsAscii(PadMillis(m))
  {
    hide DayNumber;
    assert forall c :: IsDigit(c) ==> c as int < 0x80;
  }

  lemma DateParses(d: Date)
    requires ValidDate(d) && MIN_YEAR <= d.year <= MAX_YEAR && |DateText(d)| >= 8 && Utf8.IsAscii(DateText(d))
    ensures Utf8.Length(DateText(d)) == |DateText(d)| && ParseDate(DateText(d)) == Done(d)
  {
    hide DateText, Utf8.Slice;
    var s, n := DateText(d), |DateText(d)|;
    DateTextFields(d);
    Utf8.AsciiSlice(s, 0, n - 4);
    Utf8.AsciiSlice(s, n - 4, n - 2);
    Utf8.AsciiSlice(s, n - 2, n);
    assert s[0..n - 4] == s[..n - 4] && s[n - 2..n] == s[n - 2..];
  }

  lemma ClockParses(s: Stamp)
    requires s.hour < 24 && s.minute < 60 && s.second < 60 && Utf8.IsAscii(ClockText(s))
    ensures Utf8.Length(ClockText(s)) == 6 && ParseClock(ClockText(s)) == Done((s.hour, s.minute, s.second))
  {
    hide ClockText, Utf8.Slice;
    ClockTextFields(s);
    Utf8.AsciiSlice(ClockText(s), 0, 2);
    Utf8.AsciiSlice(ClockText(s), 2, 4);
    Utf8.AsciiSlice(ClockText(s), 4, 6);
  }

  lemma FieldsParse(s: Stamp, m: int)
    requires ValidStamp(s) && -100 < m < 1000 && |DateText(s.date)| >= 8
    ensures HasShape([DateText(s.date), ClockText(s), PadMillis(m)])
    ensures ParseFields(DateText(s.date), ClockText(s), PadMillis(m)) == Done((s, m))
  {
    hide DateText, ClockText, PadMillis, ParseDate, ParseClock;
    TextIsAscii(s, m);
    DateParses(s.date);
    ClockParses(s);
    PadMillisParses(m);
    Utf8.AsciiSlice(PadMillis(m), 0, 0);
  }

  lemma DisplayInCalendar(t: i64)
    requires InCalendar(t)
    ensures Parse(Display(t)) == if RoundTrips(t) then Done(t) else Failed
  {
    hide StampOf, ParseFields, PadMillis, ClockText, Utf8.Length, Utf8.IsAscii;
    var s, m := StampOf(Seconds(t)), MillisPart(t);
    SplitThree(DateText(s.date), ClockText(s), PadMillis(m));
    assert |DateText(s.date)| == |DecInt(s.date.year)| + 4 by {
      assert Pow10(2) == 100;
    }
    YearTextLength(s.date.year);
    PadMillisParses(m);
    if RoundTrips(t) {
      FieldsParse(s, m);
    } else {
      TextIsAscii(s, m);
      Utf8.AsciiSlice(DateText(s.date), 0, 0);
      Utf8.AsciiSlice(PadMillis(m), 0, 0);
    }
  }

  lemma NoDotInside(a: string, b: string)
    requires '.' !in a && '.' !in b
    ensures '.' !in a + b
  {
  }

  lemma InvalidText(n: int)
    ensures Parse(INVALID + DecInt(n) + ">") == Failed
  {
    var d := DecInt(n);
    assert '.' !in d by {
      assert '.' !in Dec(if n < 0 then -n else n);
    }
    assert '.' !in INVALID;
    NoDotInside(INVALID, d);
    NoDotInside(INVALID + d, ">");
    SplitNone(INVALID + d + ">", '.');
  }

  /** Exactly when the parser inverts the printer, over every i64. */
  lemma ParseInvertsDisplay(t: i64)
    ensures Parse(Display(t)) == Done(t) <==> RoundTrips(t)
    ensures !RoundTrips(t) ==> Parse(Display(t)) == Failed
  {
    if InCalendar(t) {
      DisplayInCalendar(t);
    } else {
      InvalidText(t);
    }
  }

  // ---------------------------------------------------------------------------------------------
  // Text that stops the parser

  ghost predicate YearReads(date: string) {
    exists i :: 0 <= i <= |date| && Utf8.Length(date[..i]) == Utf8.Length(date) - 4
                && ParseSigned(date[..i], I32_MIN, I32_MAX).Ok?
  }

  ghost predicate HourReads(clock: string) {
    exists i :: 0 <= i <= |clock| && Utf8.Length(clock[..i]) == 2 && ParseUnsigned(clock[..i], U32_MAX).Ok?
  }

  /** A byte offset inside a character, met while cutting out year and month. */
  ghost predicate DateIsCut(date: string)
    requires Utf8.Length(date) >= 8
  {
    var n := Utf8.Length(date);
    !Utf8.IsBoundary(date, n - 4) || (YearReads(date) && !Utf8.IsBoundary(date, n - 2))
  }

  ghost predicate ClockIsCut(clock: string) {
    !Utf8.IsBoundary(clock, 2) || (HourReads(clock) && !Utf8.IsBoundary(clock, 4))
  }

  lemma DatePanicsExactly(date: string)
    requires Utf8.Length(date) >= 8
    ensures ParseDate(date) == Panicked <==> DateIsCut(date)
  {
    hide Utf8.Length, Utf8.IsBoundary, Utf8.Slice, ParseSigned, ParseUnsigned;
    var n := Utf8.Length(date);
    Utf8.SlicePanicsExactly(date, 0, n - 4);
    Utf8.SlicePanicsExactly(date, n - 4, n - 2);
    Utf8.SlicePanicsExactly(date, n - 2, n);
    forall i | 0 <= i <= |date| && Utf8.Length(date[..i]) == n - 4 ensures Utf8.Slice(date, 0, n - 4) == Done(date[..i]) {
      Utf8.FrontSlice(date, n - 4, i);
    }
    if Utf8.Slice(date, 0, n - 4).Done? {
      Utf8.FrontOfSlice(date, n - 4);
    }
  }

  lemma ClockPanicsExactly(clock: string)
    requires Utf8.Length(clock) == 6
    ensures ParseClock(clock) == Panicked <==> ClockIsCut(clock)
  {
    hide Utf8.Length, Utf8.IsBoundary, Utf8.Slice, ParseSigned, ParseUnsigned;
    Utf8.SlicePanicsExactly(clock, 0, 2);
    Utf8.SlicePanicsExactly(clock, 2, 4);
    Utf8.SlicePanicsExactly(clock, 4, 6);
    forall i | 0 <= i <= |clock| && Utf8.Length(clock[..i]) == 2 ensures Utf8.Slice(clock, 0, 2) == Done(clock[..i]) {
      Utf8.FrontSlice(clock, 2, i);
    }
    if Utf8.Slice(clock, 0, 2).Done? {
      Utf8.FrontOfSlice(clock, 2);
    }
  }

  /** Text of the right lengths whose date is cut inside a character, or whose clock is once the date has been read. */
  ghost predicate CutsCharacter(s: string) {
    var parts := Split(s, '.');
    HasShape(parts) && (DateIsCut(parts[0]) || (ParseDate(parts[0]).Done? && ClockIsCut(parts[1])))
  }

  /** Exactly when parsing stops on a panic, over every string. */
  lemma ParsePanicsExactly(s: string)
    ensures Parse(s) == Panicked <==> CutsCharacter(s)
  {
    var parts := Split(s, '.');
    if HasShape(parts) {
      hide ParseDate, ParseClock, DateIsCut, ClockIsCut;
      DatePanicsExactly(parts[0]);
      ClockPanicsExactly(parts[1]);
    }
  }

  /** ASCII text never stops the parser. */
  lemma AsciiNeverCuts(s: string)
    requires Utf8.IsAscii(s)
    ensures !CutsCharacter(s)
  {
    var parts := Split(s, '.');
    if HasShape(parts) {
      SplitCharacters(s, '.', 0);
      SplitCharacters(s, '.', 1);
      var n := Utf8.Length(parts[0]);
      Utf8.AsciiBoundary(parts[0], n - 4);
      Utf8.AsciiBoundary(parts[0], n - 2);
      Utf8.AsciiBoundary(parts[1], 2);
      Utf8.AsciiBoundary(parts[1], 4);
    }
  }

  lemma CutYearPanics(date: string)
    requires '.' !in date && Utf8.Length(date) >= 8 && Utf8.Slice(date, 0, Utf8.Length(date) - 4) == Panicked
    ensures Parse(date + ['.'] + ("000000" + ['.'] + "000")) == Panicked
  {
    SplitThree(date, "000000", "000");
    Utf8.AsciiSlice("000000", 0, 0);
    Utf8.AsciiSlice("000", 0, 0);
    CutYear(date);
    hide Utf8.Length, Split, ParseClock, ParseDate;
  }

  lemma CutYear(date: string)
    requires Utf8.Length(date) >= 8 && Utf8.Slice(date, 0, Utf8.Length(date) - 4) == Panicked
    ensures ParseDate(date) == Panicked
  {
    hide Utf8.Length, Utf8.Slice, ParseSigned, ParseUnsigned;
  }

  /** Four euro signs are twelve bytes: the year would end inside the third. */
  lemma EuroSignsPanic()
    ensures Parse("\U{20AC}\U{20AC}\U{20AC}\U{20AC}.000000.000") == Panicked
  {
    hide Parse;
    var date := "\U{20AC}\U{20AC}\U{20AC}\U{20AC}";
    EuroSigns();
    CutYearPanics(date);
    assert date + ['.'] + ("000000" + ['.'] + "000") == "\U{20AC}\U{20AC}\U{20AC}\U{20AC}.000000.000";
  }

  lemma EuroSigns()
    ensures var date := "\U{20AC}\U{20AC}\U{20AC}\U{20AC}"; Utf8.Length(date) == 12 && Utf8.Slice(date, 0, 8) == Panicked
  {
    var date := "\U{20AC}\U{20AC}\U{20AC}\U{20AC}";
    assert Utf8.CharsBefore(date[1..][1..], 2) == None;
    assert Utf8.CharsBefore(date[1..], 5) == None;
    assert Utf8.CharsBefore(date, 8) == None;
  }

  lemma StampIs(secs: int, s: Stamp)
    requires ValidStamp(s) && Timestamp(s) == secs
    ensures StampOf(secs) == s
  {
    hide StampOf, DayNumber, ValidDate, Timestamp;
    var u := StampOf(secs);
    SameInstant(DayNumber(u.date), DayNumber(s.date), u, s);
    DayNumberIncreases(u.date, s.date);
  }

  lemma SameInstant(m: int, n: int, u: Stamp, s: Stamp)
    requires ValidDate(u.date) && ValidDate(s.date) && m == DayNumber(u.date) && n == DayNumber(s.date)
    requires u.hour < 24 && u.minute < 60 && u.second < 60 && s.hour < 24 && s.minute < 60 && s.second < 60
    requires Timestamp(u) == Timestamp(s)
    ensures m == n && u.hour == s.hour && u.minute == s.minute && u.second == s.second
  {
    hide DayNumber, ValidDate;
  }

  lemma EpochStamp()
    ensures StampOf(0) == Stamp(Date(1970, 1, 1), 0, 0, 0)
  {
    StampIs(0, Stamp(Date(1970, 1, 1), 0, 0, 0));
  }

  lemma EpochNumbers()
    ensures DecInt(1970) == "1970" && Pad(1, 2) == "01" && Pad(0, 2) == "00" && Pad(0, 3) == "000"
  {
  }

  lemma EpochText()
    ensures Display(0) == "19700101.000000.000"
  {
    EpochStamp();
    EpochNumbers();
    hide StampOf, Timestamp, DecInt, Pad, ValidDate;
    assert Seconds(0) == 0 && MillisPart(0) == 0;
    assert DateText(Date(1970, 1, 1)) == "19700101";
  }

  lemma AfternoonStamp()
    ensures StampOf(1_705_321_845) == Stamp(Date(2024, 1, 15), 12, 30, 45)
  {
    StampIs(1_705_321_845, Stamp(Date(2024, 1, 15), 12, 30, 45));
  }

  lemma AfternoonFields()
    ensures DateText(Date(2024, 1, 15)) == "20240115" && PadMillis(7) == "007"
    ensures ClockText(Stamp(Date(2024, 1, 15), 12, 30, 45)) == "123045"
  {
    AfternoonNumbers();
    hide DecInt, Pad;
  }

  lemma DisplayOfStamp(t: i64, s: Stamp)
    requires ValidStamp(s) && StampOf(Seconds(t)) == s
    ensures Display(t) == DateText(s.date) + "." + ClockText(s) + "." + PadMillis(MillisPart(t))
  {
    hide StampOf, Seconds, MillisPart, DateText, ClockText, PadMillis;
  }

  /** The format by example: half past noon, 45 seconds and 7 milliseconds on the 15th of January 2024. */
  lemma AfternoonText()
    ensures Display(1_705_321_845_007) == "20240115.123045.007"
  {
    var t: i64 := 1_705_321_845_007;
    assert Seconds(t) == 1_705_321_845 && MillisPart(t) == 7;
    AfternoonStamp();
    hide StampOf, Timestamp, Seconds, MillisPart, DateText, ClockText, PadMillis, Display;
    AfternoonFields();
    DisplayOfStamp(t, Stamp(Date(2024, 1, 15), 12, 30, 45));
    assert "20240115" + "." == "20240115.";
    assert "20240115." + "123045" == "20240115.123045";
  }

  lemma AfternoonNumbers()
    ensures DecInt(2024) == "2024" && Pad(1, 2) == "01" && Pad(15, 2) == "15"
    ensures Pad(12, 2) == "12" && Pad(30, 2) == "30" && Pad(45, 2) == "45" && Pad(7, 3) == "007"
  {
    YearNumber();
    DayNumbers();
    ClockNumbers();
    hide DecInt, Pad;
  }

  lemma YearNumber()
    ensures DecInt(2024) == "2024"
  {
  }

  lemma DayNumbers()
    ensures Pad(1, 2) == "01" && Pad(15, 2) == "15" && Pad(7, 3) == "007"
  {
  }

  lemma ClockNumbers()
    ensures Pad(12, 2) == "12" && Pad(30, 2) == "30" && Pad(45, 2) == "45"
  {
  }

  /** 200 ms before the epoch: the millisecond part prints as four characters, and is refused. */
  lemma WideMillisFail()
    ensures InCalendar(-200) && |PadMillis(MillisPart(-200))| == 4 && Parse(Display(-200)) == Failed
  {
    EpochStamp();
    assert Seconds(-200) == 0 && MillisPart(-200) == -200;
    hide StampOf, Parse, Display, Seconds, MillisPart, Pad, PadMillis;
    ParseInvertsDisplay(-200);
    WideMillisText(-200);
  }

  lemma WideMillisText(m: int)
    requires -1000 < m <= -100
    ensures |PadMillis(m)| == 4
  {
  }

  /** The first instant of year 999: its year prints as three characters, and the date is too short. */
  lemma ShortYearFails()
    ensures var t: i64 := -30_641_760_000_000;
            InCalendar(t) && DateText(StampOf(Seconds(t)).date) == "9990101" && Parse(Display(t)) == Failed
  {
    var t: i64 := -30_641_760_000_000;
    StampIs(-30_641_760_000, Stamp(Date(999, 1, 1), 0, 0, 0));
    ParseInvertsDisplay(t);
    YearNumbers();
    hide StampOf, Timestamp, Parse, Display, Pad, DecInt, DayNumber, ValidDate;
    assert Seconds(t) == -30_641_760_000;
  }

  lemma YearNumbers()
    ensures DecInt(999) == "999" && Pad(1, 2) == "01"
  {
  }

  lemma YearOfTime(t: i64)
    ensures t >= 0 ==> StampOf(Seconds(t)).date.year >= 1970
  {
    var d := StampOf(Seconds(t)).date;
    if t >= 0 {
      DayNumberWithinYear(d);
      assert DaysBeforeYear(1970) == EPOCH_DAY;
      if d.year < 1970 {
        YearsIncrease(d.year, 1970);
      }
    }
  }

  /** Every instant since the epoch that the calendar can hold survives printing and parsing. */
  lemma SinceEpochRoundTrips(t: i64)
    requires t >= 0 && InCalendar(t)
    ensures Parse(Display(t)) == Done(t)
  {
    YearOfTime(t);
    ParseInvertsDisplay(t);
  }

  // ---------------------------------------------------------------------------------------------
  // Order

  predicate ClockLess(a: Stamp, b: Stamp) {
    a.hour < b.hour || (a.hour == b.hour && (a.minute < b.minute || (a.minute == b.minute && a.second < b.second)))
  }

  lemma TimestampOrder(a: Stamp, b: Stamp)
    requires ValidStamp(a) && ValidStamp(b)
    ensures Timestamp(a) < Timestamp(b) <==> DateLess(a.date, b.date) || (a.date == b.date && ClockLess(a, b))
    ensures Timestamp(a) == Timestamp(b) <==> a == b
  {
    DayNumberIncreases(a.date, b.date);
    DayNumberIncreases(b.date, a.date);
  }

  lemma DateTextOrder(a: Date, b: Date)
    requires ValidDate(a) && ValidDate(b) && 1000 <= a.year <= 9999 && 1000 <= b.year <= 9999
    ensures |DateText(a)| == |DateText(b)| == 8
    ensures StringLess(DateText(a), DateText(b)) <==> DateLess(a, b)
    ensures DateText(a) == DateText(b) <==> a == b
  {
    assert Pow10(2) == 100 && Pow10(3) == 1000 && Pow10(4) == 10000;
    DecIsPad(a.year, 4);
    DecIsPad(b.year, 4);
    PadOrder(a.year, b.year, 4);
    PadOrder(a.month, b.month, 2);
    PadOrder(a.day, b.day, 2);
    var ym, zm := Pad(a.year, 4) + Pad(a.month, 2), Pad(b.year, 4) + Pad(b.month, 2);
    StringLessSplit(Pad(a.year, 4), Pad(a.month, 2), Pad(b.year, 4), Pad(b.month, 2));
    EqualHalves(Pad(a.year, 4), Pad(a.month, 2), Pad(b.year, 4), Pad(b.month, 2));
    StringLessSplit(ym, Pad(a.day, 2), zm, Pad(b.day, 2));
    EqualHalves(ym, Pad(a.day, 2), zm, Pad(b.day, 2));
  }

  lemma EqualHalves(a: string, x: string, b: string, y: string)
    requires |a| == |b|
    ensures a + x == b + y <==> a == b && x == y
  {
    if a + x == b + y {
      assert a == (a + x)[..|a|] && b == (b + y)[..|b|];
      assert x == (a + x)[|a|..] && y == (b + y)[|b|..];
    }
  }

  lemma ClockTextOrder(a: Stamp, b: Stamp)
    requires ValidStamp(a) && ValidStamp(b)
    ensures StringLess(ClockText(a), ClockText(b)) <==> ClockLess(a, b)
    ensures ClockText(a) == ClockText(b) <==> (a.hour == b.hour && a.minute == b.minute && a.second == b.second)
  {
    assert Pow10(2) == 100;
    PadOrder(a.hour, b.hour, 2);
    PadOrder(a.minute, b.minute, 2);
    PadOrder(a.second, b.second, 2);
    var hm, im := Pad(a.hour, 2) + Pad(a.minute, 2), Pad(b.hour, 2) + Pad(b.minute, 2);
    StringLessSplit(Pad(a.hour, 2), Pad(a.minute, 2), Pad(b.hour, 2), Pad(b.minute, 2));
    EqualHalves(Pad(a.hour, 2), Pad(a.minute, 2), Pad(b.hour, 2), Pad(b.minute, 2));
    StringLessSplit(hm, Pad(a.second, 2), im, Pad(b.second, 2));
    EqualHalves(hm, Pad(a.second, 2), im, Pad(b.second, 2));
  }

  lemma DottedOrder(a: string, x: string, b: string, y: string)
    requires |a| == |b|
    ensures StringLess(a + ['.'] + x, b + ['.'] + y) <==> StringLess(a, b) || (a == b && StringLess(x, y))
  {
    var dot := ['.'];
    StringLessSplit(a + dot, x, b + dot, y);
    StringLessSplit(a, dot, b, dot);
    EqualHalves(a, dot, b, dot);
    StringLessSplit(dot, "", dot, "");
    assert !StringLess(dot, dot) by {
      assert dot + "" == dot;
      assert Codes(dot)[1..] == [];
    }
  }

  /** The first instant of year 10000. */
  const YEAR_10000 := 253_402_300_800_000

  lemma YearBefore10000(t: i64)
    requires t >= 0
    ensures t < YEAR_10000 <==> StampOf(Seconds(t)).date.year <= 9999
  {
    var d := StampOf(Seconds(t)).date;
    DayNumberWithinYear(d);
    assert DaysBeforeYear(10000) == EPOCH_DAY + 2_932_897;
    if d.year < 10000 {
      YearsIncrease(d.year, 10000);
    } else if d.year > 10000 {
      YearsIncrease(10000, d.year);
    }
  }

  lemma YearBounds()
    ensures DaysBeforeYear(-262143) == EPOCH_DAY - 96_465_292 && DaysBeforeYear(262143) == EPOCH_DAY + 95_026_237
  {
  }

  lemma YearBefore(d: Date, y: int)
    requires ValidDate(d)
    ensures d.year < y <==> DayNumber(d) < DaysBeforeYear(y)
  {
    DayNumberWithinYear(d);
    if d.year < y {
      YearsIncrease(d.year, y);
    } else if d.year > y {
      YearsIncrease(y, d.year);
    }
  }

  /** The instants the calendar holds: chrono's first and last second. */
  lemma CalendarRange(t: i64)
    ensures InCalendar(t) <==> -8_334_601_228_800 <= Seconds(t) <= 8_210_266_876_799
  {
    var s := StampOf(Seconds(t));
    YearBounds();
    hide StampOf, DayNumber, DaysBeforeYear, Seconds;
    YearBefore(s.date, -262143);
    YearBefore(s.date, 262143);
  }

  /** From the epoch to the end of year 9999 the order of the strings is the order of the instants. */
  lemma StringOrderIsTimeOrder(t: i64, u: i64)
    requires 0 <= t < YEAR_10000 && 0 <= u < YEAR_10000
    ensures StringLess(Display(t), Display(u)) <==> t < u
  {
    hide StampOf, DateText, ClockText, DateLess, ClockLess, Timestamp, StringLess, Seconds;
    YearBefore10000(t);
    YearBefore10000(u);
    YearOfTime(t);
    YearOfTime(u);
    var a, b := StampOf(Seconds(t)), StampOf(Seconds(u));
    assert Pow10(3) == 1000;
    TimestampOrder(a, b);
    DateTextOrder(a.date, b.date);
    ClockTextOrder(a, b);
    PadOrder(MillisPart(t), MillisPart(u), 3);
    DottedOrder(ClockText(a), PadMillis(MillisPart(t)), ClockText(b), PadMillis(MillisPart(u)));
    DottedOrder(DateText(a.date), ClockText(a) + ['.'] + PadMillis(MillisPart(t)),
                DateText(b.date), ClockText(b) + ['.'] + PadMillis(MillisPart(u)));
  }
}
