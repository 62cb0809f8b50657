/** Printing and parsing durations such as 1D3h7m (time.rs). */
module DurationMillis {
  import opened Results
  import opened Arith
  import opened Bytes
  import opened Sequences
  import opened Text

  const MILLIS_IN_MILLISECOND := 1
  const MILLIS_IN_SECOND := 1000
  const MILLIS_IN_MINUTE := 60_000
  const MILLIS_IN_HOUR := 3_600_000
  const MILLIS_IN_DAY := 86_400_000
  const MILLIS_IN_WEEK := 604_800_000
  const MILLIS_IN_MONTH := 2_419_200_000
  const MILLIS_IN_YEAR := 29_030_400_000

  /** The printer's units, coarsest first; the last one is the source's label for a millisecond. */
  datatype Unit = Month | Week | Day | Hour | Minute | Second | Millisecond

  const UNITS: seq<Unit> := [Month, Week, Day, Hour, Minute, Second, Millisecond]

  function Span(u: Unit): (n: nat)
    ensures n > 0
  {
    match u
    case Month => MILLIS_IN_MONTH case Week => MILLIS_IN_WEEK case Day => MILLIS_IN_DAY
    case Hour => MILLIS_IN_HOUR case Minute => MILLIS_IN_MINUTE case Second => MILLIS_IN_SECOND
    case Millisecond => MILLIS_IN_MILLISECOND
  }

  /** n units in milliseconds: n * Span(u), case by case to stay linear. */
  function Millis(n: nat, u: Unit): (v: nat)
    ensures v >= n
  {
    match u
    case Month => n * 2_419_200_000 case Week => n * 604_800_000 case Day => n * 86_400_000
    case Hour => n * 3_600_000 case Minute => n * 60_000 case Second => n * 1000
    case Millisecond => n
  }

  function Label(u: Unit): (s: string)
    ensures s != "" && !IsDigit(s[0])
  {
    match u
    case Month => "M" case Week => "W" case Day => "D"
    case Hour => "h" case Minute => "m" case Second => "s"
    case Millisecond => "\U{03BC}s"
  }

  // ---------------------------------------------------------------------------------------------
  // Printing

  function UnitText(remaining: nat, units: seq<Unit>): string {
    if units == [] then ""
    else
      var span := Span(units[0]);
      if remaining >= span then Dec(remaining / span) + Label(units[0]) + UnitText(remaining % span, units[1..])
      else UnitText(remaining, units[1..])
  }

  /** `i64::saturating_abs`. */
  function SaturatingAbs(d: i64): (n: nat)
    ensures n <= I64_MAX
  {
    if d == I64_MIN then I64_MAX else if d < 0 then -d else d
  }

  function DisplayText(d: i64): string {
    var s := (if d < 0 then "-" else "") + UnitText(SaturatingAbs(d), UNITS);
    if s == "" || s == "-" then "0" else s
  }

  lemma Leftover(n: nat, span: nat)
    requires span > 0
    ensures n - n / span * span == n % span
  {
  }

  method Display(d: i64) returns (s: string)
    ensures s == DisplayText(d)
  {
    hide UnitText;
    s := PrintUnits(if d < 0 then "-" else "", SaturatingAbs(d), UNITS);
    if s == "" || s == "-" {
      s := "0";
    }
  }

  /** The source's do_unit, once for each unit. */
  method PrintUnits(start: string, amount: nat, units: seq<Unit>) returns (s: string)
    ensures s == start + UnitText(amount, units)
  {
    hide Label, Span, Dec;
    s := start;
    var remaining := amount;
    for k := 0 to |units|
      invariant remaining >= 0
      invariant s + UnitText(remaining, units[k..]) == start + UnitText(amount, units)
    {
      assert units[k..][0] == units[k] && units[k..][1..] == units[k + 1..];
      var span := Span(units[k]);
      if remaining >= span {
        Associate(s, Dec(remaining / span) + Label(units[k]), UnitText(remaining % span, units[k + 1..]));
        Leftover(remaining, span);
        var count := remaining / span;
        remaining := remaining - count * span;
        s := s + (Dec(count) + Label(units[k]));
      }
    }
  }

  // ---------------------------------------------------------------------------------------------
  // Parsing

  /** Rust's `char::is_whitespace`. */
  predicate IsWhitespace(c: char) {
    var n := c as int;
    9 <= n <= 13 || n == 32 || n == 0x85 || n == 0xA0 || n == 0x1680 || 0x2000 <= n <= 0x200A
    || n == 0x2028 || n == 0x2029 || n == 0x202F || n == 0x205F || n == 0x3000
  }

  /** The same 25 characters, written out. */
  lemma WhitespaceIs(c: char)
    ensures IsWhitespace(c) <==>
              c in "\t\n\U{000B}\U{000C}\r \U{0085}\U{00A0}\U{1680}"
              || c in "\U{2000}\U{2001}\U{2002}\U{2003}\U{2004}\U{2005}\U{2006}\U{2007}\U{2008}\U{2009}\U{200A}"
              || c in "\U{2028}\U{2029}\U{202F}\U{205F}\U{3000}"
  {
  }

  function TrimStart(s: string): string {
    if s != "" && IsWhitespace(s[0]) then TrimStart(s[1..]) else s
  }

  function TrimEnd(s: string): string {
    if s != "" && IsWhitespace(s[|s| - 1]) then TrimEnd(s[..|s| - 1]) else s
  }

  function Trim(s: string): string {
    TrimEnd(TrimStart(s))
  }

  /** The unit a string starts with, in the order the source tries them. */
  function UnitAt(rest: string): (u: Option<Unit>)
    ensures u.Some? ==> |Label(u.value)| <= |rest|
  {
    if |rest| >= 2 && rest[0] == '\U{03BC}' && rest[1] == 's' then Some(Millisecond)
    else if rest == "" then None
    else match rest[0]
      case 'M' => Some(Month) case 'W' => Some(Week) case 'D' => Some(Day)
      case 'h' => Some(Hour) case 'm' => Some(Minute) case 's' => Some(Second)
      case _ => None
  }

  function DigitRun(s: string): (n: nat)
    ensures n <= |s| && AllDigits(s[..n])
    ensures n < |s| ==> !IsDigit(s[n])
  {
    if s == "" || !IsDigit(s[0]) then 0 else 1 + DigitRun(s[1..])
  }

  lemma {:induction false} DigitRunIs(a: string, b: string)
    requires AllDigits(a) && (b == "" || !IsDigit(b[0]))
    ensures DigitRun(a + b) == |a|
  {
    if a == "" {
      assert a + b == b;
    } else {
      assert (a + b)[1..] == a[1..] + b;
      DigitRunIs(a[1..], b);
    }
  }

  /** `i64::checked_mul` and `i64::checked_add`. */
  function Checked(n: int): (r: Result<int>)
    ensures r.Ok? ==> r.value == n && I64_MIN <= n <= I64_MAX
  {
    if I64_MIN <= n <= I64_MAX then Ok(n) else Err
  }

  /** One number-and-unit chunk: its checked value in milliseconds and the text after it. */
  datatype Chunk = Malformed | Chunk(millis: int, rest: string)

  function ChunkAt(s: string): (c: Chunk)
    ensures c.Chunk? ==> |c.rest| < |s| && 0 <= c.millis <= I64_MAX
  {
    var n := DigitRun(s);
    if n == 0 || DigitsValue(s[..n]) > I64_MAX || n == |s| then Malformed
    else
      var rest := s[n..];
      var u := UnitAt(rest);
      if u == None || Millis(DigitsValue(s[..n]), u.value) > I64_MAX then Malformed
      else Chunk(Millis(DigitsValue(s[..n]), u.value), rest[|Label(u.value)|..])
  }

  function Total(s: string, total: int): Result<int>
    decreases |s|
  {
    if s == "" then Ok(total)
    else
      var c := ChunkAt(s);
      if c == Malformed || Checked(total + c.millis) == Err then Err else Total(c.rest, total + c.millis)
  }

  predicate IsZeroText(s: string) {
    s == "" || s == "0" || s == "+0" || s == "-0"
  }

  function ParseText(input: string): (r: Result<int>)
    ensures r.Ok? ==> I64_MIN <= r.value <= I64_MAX
  {
    var s := Trim(input);
    if IsZeroText(s) then Ok(0)
    else if s[0] == '+' then SignedTotal(s[1..], 1)
    else if s[0] == '-' then SignedTotal(s[1..], -1)
    else SignedTotal(s, 1)
  }

  function SignedTotal(body: string, sign: int): Result<int> {
    if body == "" then Err else ApplySign(Total(body, 0), sign)
  }

  function ApplySign(total: Result<int>, sign: int): Result<int> {
    if total.Ok? then Checked(total.value * sign) else Err
  }

  method Parse(input: string) returns (r: Result<int>)
    ensures r == ParseText(input)
  {
    var s := Trim(input);
    if IsZeroText(s) {
      return Ok(0);
    }
    var idx := 0;
    var sign := 1;
    if s[0] == '+' {
      idx := 1;
    } else if s[0] == '-' {
      sign := -1;
      idx := 1;
    }
    assert s[0..] == s;
    if idx >= |s| {
      return Err;
    }
    var total := ParseTotal(s, idx);
    r := ApplySign(total, sign);
  }

  method ParseTotal(s: string, start: nat) returns (r: Result<int>)
    requires start <= |s|
    ensures r == Total(s[start..], 0)
  {
    hide ChunkAt;
    var idx := start;
    var total := 0;
    while idx < |s|
      invariant idx <= |s|
      invariant Total(s[idx..], total) == Total(s[start..], 0)
    {
      var millis, next := ParseChunk(s, idx);
      if millis == Err {
        return Err;
      }
      var sum := Checked(total + millis.value);
      if sum == Err {
        return Err;
      }
      total := sum.value;
      idx := next;
    }
    r := Ok(total);
  }

  method SkipDigits(s: string, start: nat) returns (end: nat)
    requires start <= |s|
    ensures end == start + DigitRun(s[start..])
  {
    end := start;
    while end < |s| && IsDigit(s[end])
      invariant start <= end <= |s|
      invariant AllDigits(s[start..end])
    {
      assert s[start..end + 1] == s[start..end] + [s[end]];
      end := end + 1;
    }
    assert s[start..] == s[start..end] + s[end..];
    DigitRunIs(s[start..end], s[end..]);
  }

  /** One turn of the parsing loop: the checked value of the chunk at idx, and where the next one starts. */
  method ParseChunk(s: string, idx: nat) returns (millis: Result<int>, next: nat)
    requires idx < |s|
    ensures idx < next <= |s|
    ensures ChunkAt(s[idx..]) == if millis == Err then Malformed else Chunk(millis.value, s[next..])
  {
    hide UnitAt, Millis, Label, DigitsValue;
    var end := SkipDigits(s, idx);
    assert s[idx..][..end - idx] == s[idx..end] && s[idx..][end - idx..] == s[end..];
    if end == idx || DigitsValue(s[idx..end]) > I64_MAX || end >= |s| {
      return Err, idx + 1;
    }
    var unit := UnitAt(s[end..]);
    if unit == None {
      return Err, idx + 1;
    }
    next := end + |Label(unit.value)|;
    assert s[end..][|Label(unit.value)|..] == s[next..];
    millis := Checked(Millis(DigitsValue(s[idx..end]), unit.value));
  }

  // ---------------------------------------------------------------------------------------------
  // The round trip

  lemma LabelRead(u: Unit, rest: string)
    ensures UnitAt(Label(u) + rest) == Some(u)
  {
    assert (Label(u) + rest)[0] == Label(u)[0];
    if u == Millisecond {
      assert (Label(u) + rest)[1] == Label(u)[1];
    }
  }

  /** A chunk of digits and a label is read as such, unless its value is too great. */
  lemma ChunkRead(d: string, u: Unit, rest: string)
    requires d != "" && AllDigits(d)
    ensures ChunkAt(d + Label(u) + rest)
         == if Millis(DigitsValue(d), u) <= I64_MAX then Chunk(Millis(DigitsValue(d), u), rest) else Malformed
  {
    hide ChunkAt, DigitRun, UnitAt, Millis, DigitsValue;
    var tail := Label(u) + rest;
    Associate(d, Label(u), rest);
    DigitRunIs(d, tail);
    LabelRead(u, rest);
    assert tail[|Label(u)|..] == rest;
    DigitsThenUnit(d, tail, u);
  }

  lemma DigitsThenUnit(d: string, tail: string, u: Unit)
    requires d != "" && tail != "" && AllDigits(d) && DigitRun(d + tail) == |d| && UnitAt(tail) == Some(u)
    ensures |Label(u)| <= |tail|
    ensures ChunkAt(d + tail)
         == if Millis(DigitsValue(d), u) <= I64_MAX then Chunk(Millis(DigitsValue(d), u), tail[|Label(u)|..]) else Malformed
  {
    hide ChunkAt, DigitRun, UnitAt, Millis, DigitsValue, Label;
    var s := d + tail;
    assert s[..|d|] == d && s[|d|..] == tail;
    ChunkOf(s, |d|, u);
  }

  /** The chunk of a string whose digits and unit are known. */
  lemma ChunkOf(s: string, n: nat, u: Unit)
    requires 0 < n < |s| && DigitRun(s) == n && AllDigits(s[..n]) && UnitAt(s[n..]) == Some(u)
    ensures |Label(u)| <= |s[n..]|
    ensures ChunkAt(s) == if Millis(DigitsValue(s[..n]), u) <= I64_MAX
                          then Chunk(Millis(DigitsValue(s[..n]), u), s[n..][|Label(u)|..]) else Malformed
  {
    hide DigitRun, UnitAt, Millis, Label, DigitsValue;
  }

  lemma TotalStep(s: string, total: int)
    requires s != ""
    ensures var c := ChunkAt(s);
            Total(s, total) == if c == Malformed || Checked(total + c.millis) == Err then Err else Total(c.rest, total + c.millis)
  {
    hide ChunkAt;
  }

  lemma ChunkTotal(d: string, u: Unit, rest: string, total: nat)
    requires d != "" && AllDigits(d) && total <= I64_MAX
    ensures Total(d + Label(u) + rest, total)
         == if total + Millis(DigitsValue(d), u) <= I64_MAX then Total(rest, total + Millis(DigitsValue(d), u)) else Err
  {
    hide ChunkAt, Millis, DigitsValue, Label, Total;
    ChunkRead(d, u, rest);
    TotalStep(d + Label(u) + rest, total);
  }

  lemma TotalRead(q: nat, u: Unit, rest: string, total: nat)
    requires total + Millis(q, u) <= I64_MAX
    ensures Total(Dec(q) + Label(u) + rest, total) == Total(rest, total + Millis(q, u))
  {
    hide Total, Label, Dec, Millis;
    DecValue(q);
    ChunkTotal(Dec(q), u, rest, total);
  }

  /** Reading the printed units adds up to the number printed, without overflow on the way. */
  lemma {:induction false} UnitsRead(remaining: nat, units: seq<Unit>, total: nat)
    requires units != [] && units[|units| - 1] == Millisecond
    requires total + remaining <= I64_MAX
    ensures Total(UnitText(remaining, units), total) == Ok(total + remaining)
  {
    hide ChunkAt;
    var u, rest := units[0], units[1..];
    WholeUnits(remaining, u);
    if rest == [] {
      LastUnitRead(remaining, total);
      assert units == [Millisecond];
    } else if remaining >= Span(u) {
      UnitsRead(remaining % Span(u), rest, total + Millis(remaining / Span(u), u));
      TotalRead(remaining / Span(u), u, UnitText(remaining % Span(u), rest), total);
    } else {
      UnitsRead(remaining, rest, total);
    }
  }

  lemma LastUnitRead(remaining: nat, total: nat)
    requires total + remaining <= I64_MAX
    ensures Total(UnitText(remaining, [Millisecond]), total) == Ok(total + remaining)
  {
    if remaining > 0 {
      TotalRead(remaining, Millisecond, "", total);
      assert UnitText(remaining, [Millisecond]) == Dec(remaining) + Label(Millisecond) + "";
    }
  }

  lemma WholeUnits(remaining: nat, u: Unit)
    ensures Millis(remaining / Span(u), u) + remaining % Span(u) == remaining
  {
  }

  predicate Printable(s: string) {
    forall i :: 0 <= i < |s| ==> !IsWhitespace(s[i])
  }

  lemma TrimPrintable(s: string)
    requires Printable(s)
    ensures Trim(s) == s
  {
  }

  /** The printed form starts with a digit and holds no blank and no '~'. */
  lemma {:induction false} UnitTextShape(remaining: nat, units: seq<Unit>)
    ensures Printable(UnitText(remaining, units)) && '~' !in UnitText(remaining, units)
    ensures UnitText(remaining, units) != "" ==> IsDigit(UnitText(remaining, units)[0])
    ensures UnitText(remaining, units) != "0"
    ensures remaining > 0 && units != [] && units[|units| - 1] == Millisecond ==> UnitText(remaining, units) != ""
  {
    if units != [] {
      var span := Span(units[0]);
      if remaining >= span {
        var d, rest := Dec(remaining / span), UnitText(remaining % span, units[1..]);
        UnitTextShape(remaining % span, units[1..]);
        DecShape(remaining / span);
        LabelShape(units[0]);
        assert (d + Label(units[0]) + rest)[0] == d[0];
      } else {
        UnitTextShape(remaining, units[1..]);
        assert |units| == 1 ==> span == 1 || units[0] != Millisecond;
      }
    }
  }

  lemma DecShape(n: nat)
    ensures Printable(Dec(n)) && '~' !in Dec(n) && IsDigit(Dec(n)[0])
  {
    assert forall c :: IsDigit(c) ==> !IsWhitespace(c) && c != '~';
  }

  lemma LabelShape(u: Unit)
    ensures Printable(Label(u)) && '~' !in Label(u)
  {
  }

  lemma DisplayShape(d: i64)
    ensures Printable(DisplayText(d)) && '~' !in DisplayText(d)
  {
    UnitTextShape(SaturatingAbs(d), UNITS);
  }

  lemma ParsePositive(body: string)
    requires Printable(body) && body != "" && IsDigit(body[0]) && body != "0"
    ensures ParseText(body) == SignedTotal(body, 1)
  {
    TrimPrintable(body);
  }

  lemma ParseNegative(body: string)
    requires Printable(body) && body != "" && body != "0"
    ensures ParseText("-" + body) == SignedTotal(body, -1)
  {
    var s := "-" + body;
    TrimPrintable(s);
    assert s[0] == '-' && s[1..] == body;
    assert "-0"[1..] == "0";
  }

  /** Printing, then parsing, yields the magnitude the printer saw with the sign of the duration. */
  lemma ParseOfDisplay(d: i64)
    ensures ParseText(DisplayText(d)) == Ok(if d < 0 then 0 - SaturatingAbs(d) else SaturatingAbs(d))
  {
    hide ChunkAt, UnitText;
    var n := SaturatingAbs(d);
    var body := UnitText(n, UNITS);
    UnitTextShape(n, UNITS);
    UnitsRead(n, UNITS, 0);
    if d < 0 {
      ParseNegative(body);
    } else if d > 0 {
      assert "" + body == body;
      ParsePositive(body);
    } else {
      assert body == "" by {
        if body != "" {
          NothingToPrint(UNITS);
        }
      }
      TrimPrintable("0");
    }
  }

  lemma {:induction false} NothingToPrint(units: seq<Unit>)
    ensures UnitText(0, units) == ""
  {
    if units != [] {
      NothingToPrint(units[1..]);
    }
  }

  /** The round trip holds for every i64 but the least, whose magnitude the printer saturates. */
  lemma ParseInvertsDisplay(d: i64)
    ensures ParseText(DisplayText(d)) == Ok(d) <==> d != I64_MIN
  {
    ParseOfDisplay(d);
  }
  // ---------------------------------------------------------------------------------------------
  // What is printed, and what is accepted

  /** A count with its label, left out when it is zero. */
  function Piece(count: nat, mark: string): string {
    if count == 0 then "" else Dec(count) + mark
  }

  /** Taking off one unit: how many, and what is left. */
  lemma PrintStep(n: nat, u: Unit, rest: seq<Unit>) returns (count: nat, left: nat)
    ensures Millis(count, u) + left == n && left < Span(u)
    ensures UnitText(n, [u] + rest) == Piece(count, Label(u)) + UnitText(left, rest)
  {
    count, left := n / Span(u), n % Span(u);
    WholeUnits(n, u);
    assert ([u] + rest)[1..] == rest;
    hide Millis;
    if n < Span(u) {
      UniqueRemainder(n, Span(u), 0, n);
    }
  }

  predicate InRadix(counts: seq<nat>) {
    && |counts| == 7 && counts[1] < 4 && counts[2] < 7 && counts[3] < 24 && counts[4] < 60 && counts[5] < 60
    && counts[6] < 1000
  }

  /** The printed form in mixed radix: seven counts, each below the ratio to the next coarser unit, zeros left out. */
  lemma PrintsMixedRadix(n: nat) returns (counts: seq<nat>)
    ensures InRadix(counts)
    ensures n == 2_419_200_000 * counts[0] + 604_800_000 * counts[1] + 86_400_000 * counts[2] + 3_600_000 * counts[3]
                 + 60_000 * counts[4] + 1000 * counts[5] + counts[6]
    ensures UnitText(n, UNITS)
         == Piece(counts[0], "M") + (Piece(counts[1], "W") + (Piece(counts[2], "D") + (Piece(counts[3], "h")
            + (Piece(counts[4], "m") + (Piece(counts[5], "s") + (Piece(counts[6], "\U{03BC}s") + ""))))))
  {
    hide UnitText, Piece;
    var seconds := [Second] + ([Millisecond] + []);
    var hours := [Hour] + ([Minute] + seconds);
    assert UNITS == [Month] + ([Week] + ([Day] + hours));
    var c0, w := PrintStep(n, Month, [Week] + ([Day] + hours));
    var c1, d := PrintStep(w, Week, [Day] + hours);
    var c2, h := PrintStep(d, Day, hours);
    var c3, m := PrintStep(h, Hour, [Minute] + seconds);
    var c4, s := PrintStep(m, Minute, seconds);
    var c5, ms := PrintStep(s, Second, [Millisecond] + []);
    var c6, none := PrintStep(ms, Millisecond, []);
    NothingToPrint([]);
    counts := [c0, c1, c2, c3, c4, c5, c6];
  }
  /** A number in digits, leading zeros allowed, with its unit. */
  datatype Part = Part(digits: string, unit: Unit)

  predicate IsNumeric(p: Part) {
    p.digits != "" && AllDigits(p.digits)
  }

  predicate AreNumeric(parts: seq<Part>) {
    forall i :: 0 <= i < |parts| ==> IsNumeric(parts[i])
  }

  function Spelled(parts: seq<Part>): string {
    if parts == [] then "" else parts[0].digits + Label(parts[0].unit) + Spelled(parts[1..])
  }

  function Amount(parts: seq<Part>): nat
    requires AreNumeric(parts)
  {
    if parts == [] then 0
    else
      assert IsNumeric(parts[0]);
      Millis(DigitsValue(parts[0].digits), parts[0].unit) + Amount(parts[1..])
  }

  /** Parts in any order and number are read as their sum, or refused when it does not fit. */
  lemma {:induction false} PartsRead(parts: seq<Part>, total: nat)
    requires AreNumeric(parts) && total <= I64_MAX
    ensures Total(Spelled(parts), total) == if total + Amount(parts) <= I64_MAX then Ok(total + Amount(parts)) else Err
  {
    hide ChunkAt, Millis, DigitsValue, Label;
    if parts == [] {
      assert Total("", total) == Ok(total);
    } else {
      var (p, rest) := (parts[0], parts[1..]);
      assert IsNumeric(p);
      hide Total;
      ChunkTotal(p.digits, p.unit, Spelled(rest), total);
      if total + Millis(DigitsValue(p.digits), p.unit) <= I64_MAX {
        PartsRead(rest, total + Millis(DigitsValue(p.digits), p.unit));
      }
    }
  }

  lemma UnitIsPrefix(rest: string)
    ensures UnitAt(rest).Some? ==> rest == Label(UnitAt(rest).value) + rest[|Label(UnitAt(rest).value)|..]
  {
  }

  lemma ChunkIsPart(s: string) returns (p: Part)
    requires ChunkAt(s).Chunk?
    ensures IsNumeric(p) && s == p.digits + Label(p.unit) + ChunkAt(s).rest
  {
    hide UnitAt, Millis, DigitsValue, Label;
    var n := DigitRun(s);
    var rest := s[n..];
    p := Part(s[..n], UnitAt(rest).value);
    UnitIsPrefix(rest);
    assert s == s[..n] + rest;
    Associate(p.digits, Label(p.unit), ChunkAt(s).rest);
  }

  lemma {:induction false} OnlyPartsAreRead(s: string, total: int) returns (parts: seq<Part>)
    requires Total(s, total).Ok?
    ensures AreNumeric(parts) && s == Spelled(parts)
    decreases |s|
  {
    hide ChunkAt;
    parts := [];
    if s != "" {
      var p := ChunkIsPart(s);
      var rest := OnlyPartsAreRead(ChunkAt(s).rest, total + ChunkAt(s).millis);
      parts := [p] + rest;
      assert parts[1..] == rest;
    }
  }

  /** What may follow the sign: exactly the spellings of parts whose sum fits, and the value is that sum. */
  lemma GrammarIsExact(s: string, v: int)
    ensures Total(s, 0) == Ok(v) <==>
              exists parts :: AreNumeric(parts) && s == Spelled(parts) && v == Amount(parts) && v <= I64_MAX
  {
    hide Total, Spelled, Amount;
    if Total(s, 0) == Ok(v) {
      var parts := OnlyPartsAreRead(s, 0);
      PartsRead(parts, 0);
    }
    forall parts | AreNumeric(parts) && s == Spelled(parts) && v == Amount(parts) && v <= I64_MAX
      ensures Total(s, 0) == Ok(v)
    {
      PartsRead(parts, 0);
    }
  }

  lemma SignedText(body: string)
    requires Printable(body) && body != "0"
    ensures ParseText("+" + body) == SignedTotal(body, 1) && ParseText("-" + body) == SignedTotal(body, -1)
  {
    var (plus, minus) := ("+" + body, "-" + body);
    TrimPrintable(plus);
    TrimPrintable(minus);
    assert plus[1..] == body && minus[1..] == body && "+0"[1..] == "0" && "-0"[1..] == "0";
    hide Total, Trim, Printable;
  }

  lemma SignedZero()
    ensures ParseText("+" + "0") == Ok(0) && ParseText("-" + "0") == Ok(0) && ParseText("0") == Ok(0) && IsDigit("0"[0])
  {
    assert "+" + "0" == "+0" && "-" + "0" == "-0";
    TrimPrintable("+0");
    TrimPrintable("-0");
    TrimPrintable("0");
  }

  lemma Negated(r: Result<int>)
    requires r.Ok? ==> 0 <= r.value <= I64_MAX
    ensures ApplySign(r, 1) == r && ApplySign(r, -1) == if r.Ok? then Ok(-r.value) else Err
  {
  }

  /** A plus changes nothing and a minus negates; after either a digit must follow. */
  lemma SignsApply(body: string)
    requires Printable(body)
    ensures body != "" && IsDigit(body[0]) ==> ParseText("+" + body) == ParseText(body)
    ensures body != "" && IsDigit(body[0]) ==>
              ParseText("-" + body) == if ParseText(body).Ok? then Ok(-ParseText(body).value) else Err
    ensures body == "" || !IsDigit(body[0]) ==> ParseText("+" + body) == Err && ParseText("-" + body) == Err
  {
    hide ParseText, Total, Trim, Printable, ApplySign, IsDigit;
    if body == "0" {
      SignedZero();
    } else {
      SignedText(body);
      TotalIsNatural(body, 0);
      Negated(Total(body, 0));
      if body != "" && IsDigit(body[0]) {
        ParsePositive(body);
      }
    }
  }

  lemma {:induction false} TotalIsNatural(s: string, total: nat)
    ensures Total(s, total).Ok? && total <= I64_MAX ==> 0 <= Total(s, total).value <= I64_MAX
    ensures s != "" && !IsDigit(s[0]) ==> Total(s, total) == Err
    decreases |s|
  {
    hide UnitAt, Millis, DigitsValue, Label;
    if s != "" && ChunkAt(s).Chunk? {
      TotalIsNatural(ChunkAt(s).rest, total + ChunkAt(s).millis);
    }
  }

  predicate AreBlank(s: string) {
    forall i :: 0 <= i < |s| ==> IsWhitespace(s[i])
  }

  lemma {:induction false} TrimStartOf(a: string, s: string)
    requires AreBlank(a)
    ensures TrimStart(a + s) == TrimStart(s)
  {
    if a == "" {
      assert a + s == s;
    } else {
      TrimStartOf(a[1..], s);
      assert (a + s)[1..] == a[1..] + s;
    }
  }

  lemma {:induction false} TrimEndOf(s: string, b: string)
    requires AreBlank(b)
    ensures TrimEnd(s + b) == TrimEnd(s)
  {
    if b == "" {
      assert s + b == s;
    } else {
      TrimEndOf(s, b[..|b| - 1]);
      assert (s + b)[..|s + b| - 1] == s + b[..|b| - 1];
    }
  }

  lemma {:induction false} TrimStartKeeps(s: string, b: string)
    requires AreBlank(b)
    ensures TrimStart(s + b) == if TrimStart(s) == "" then "" else TrimStart(s) + b
  {
    if s == "" {
      assert s + b == b && b + "" == b;
      TrimStartOf(b, "");
    } else if IsWhitespace(s[0]) {
      TrimStartKeeps(s[1..], b);
      assert (s + b)[1..] == s[1..] + b;
    }
  }

  /** Blanks around a duration change nothing. */
  lemma BlanksAreIgnored(a: string, s: string, b: string)
    requires AreBlank(a) && AreBlank(b)
    ensures ParseText(a + s + b) == ParseText(s)
  {
    assert a + s + b == a + (s + b);
    TrimStartOf(a, s + b);
    TrimStartKeeps(s, b);
    if TrimStart(s) != "" {
      TrimEndOf(TrimStart(s), b);
    }
  }
}
