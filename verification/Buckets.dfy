/** Bucket locations, their attribute text, and the duration ladder (buckets.rs). */
module Buckets {
  import opened Results
  import opened Panics
  import opened Arith
  import opened Bytes
  import opened Sequences
  import opened Text
  import opened Ids
  import Utf8
  import DM = DurationMillis
  import TM = TimeMillis
  import Calendar

  datatype BucketType = User | Hashtag | Mention | ReplyToPost | Sequel

  function Code(b: BucketType): byte {
    match b case User => 0 case Hashtag => 1 case Mention => 2 case ReplyToPost => 3 case Sequel => 4
  }

  function TypeName(b: BucketType): (s: string)
    ensures '~' !in s
  {
    match b
    case User => "User" case Hashtag => "Hashtag" case Mention => "Mention"
    case ReplyToPost => "ReplyToPost" case Sequel => "Sequel"
  }

  function TypeOfName(s: string): Option<BucketType> {
    if s == "User" then Some(User) else if s == "Hashtag" then Some(Hashtag)
    else if s == "Mention" then Some(Mention) else if s == "ReplyToPost" then Some(ReplyToPost)
    else if s == "Sequel" then Some(Sequel) else None
  }

  /** Blake3 over the concatenated fields; only its being a function matters here. */
  type Hasher = bytes -> Id

  datatype BucketLocation =
    BucketLocation(bucketType: BucketType, baseId: Id, duration: i64, bucketTime: i64, locationId: Id)

  function RoundDown(t: int, d: int): int
    requires d != 0
  {
    TruncDiv(t, d) * d
  }

  /** Rust's signed division stops on zero, and on the one quotient that does not fit. */
  predicate DivisionPanics(t: i64, d: i64) {
    d == 0 || (t == I64_MIN && d == -1)
  }

  function LocationId(h: Hasher, b: BucketType, baseId: Id, duration: i64, bucketTime: i64): Id {
    h([Code(b)] + baseId + I64ToBe(duration) + I64ToBe(bucketTime))
  }

  /** `BucketLocation::new`. */
  function New(h: Hasher, b: BucketType, baseId: Id, duration: i64, t: i64): Outcome<BucketLocation> {
    if DivisionPanics(t, duration) then Panicked
    else
      RoundDownShrinks(t, duration);
      var start := RoundDown(t, duration);
      Done(BucketLocation(b, baseId, duration, start, LocationId(h, b, baseId, duration, start)))
  }

  /** `BucketLocation::validate`. */
  function Validate(h: Hasher, l: BucketLocation): Outcome<BucketLocation> {
    var other :- New(h, l.bucketType, l.baseId, l.duration, l.bucketTime);
    if l.locationId == other.locationId then Done(l) else Failed
  }

  function ToHtmlAttr(l: BucketLocation): string {
    "1" + ['~'] + (TypeName(l.bucketType) + ['~'] + (Hex(l.baseId) + ['~']
    + (DM.DisplayText(l.duration) + ['~'] + TM.Display(l.bucketTime))))
  }

  function FromHtmlAttr(h: Hasher, s: string): Outcome<BucketLocation> {
    var parts := SplitN(s, '~', 6);
    if |parts| < 5 || parts[0] != "1" then Failed
    else FromFields(h, TypeOfName(parts[1]), IdFromHex(parts[2]), DM.ParseText(parts[3]), TM.Parse(parts[4]))
  }

  /** The fields in turn: the time is parsed, and may panic, only when the others have been read. */
  function FromFields(h: Hasher, b: Option<BucketType>, id: Result<Id>, d: Result<int>, t: Outcome<i64>)
    : Outcome<BucketLocation>
    requires d.Ok? ==> I64_MIN <= d.value <= I64_MAX
  {
    if b == None || id == Err || d == Err then Failed
    else
      var time :- t;
      New(h, b.value, id.value, d.value, time)
  }

  // ---------------------------------------------------------------------------------------------
  // Rounding

  lemma AbsMul(q: int, d: int)
    ensures Abs(q * d) == Abs(q) * Abs(d)
  {
    if q >= 0 && d >= 0 {
      MulMono(d, 0, q);
    } else if q >= 0 {
      MulMono(-d, 0, q);
      assert q * d == -((-d) * q);
    } else if d >= 0 {
      MulMono(d, q, 0);
    } else {
      MulMono(-d, 0, -q);
      assert q * d == (-q) * (-d);
    }
  }

  lemma TruncOfMultiple(q: int, d: int)
    requires d != 0
    ensures TruncDiv(q * d, d) == q
  {
    AbsMul(q, d);
    MultipleHasNoRemainder(Abs(d), Abs(q));
    assert Abs(q) * Abs(d) == Abs(d) * Abs(q);
    assert Abs(q * d) / Abs(d) == Abs(q);
    if q > 0 && d < 0 {
      MulMono(-d, 1, q);
      assert q * d == -((-d) * q);
    } else if q < 0 && d > 0 {
      MulMono(d, q, -1);
    } else if q > 0 && d > 0 {
      MulMono(d, 1, q);
    } else if q < 0 && d < 0 {
      MulMono(-d, 1, -q);
      assert q * d == (-q) * (-d);
    }
  }

  /** A rounded time rounds to itself, whatever the signs. */
  lemma RoundDownIsIdempotent(t: int, d: int)
    requires d != 0
    ensures RoundDown(RoundDown(t, d), d) == RoundDown(t, d)
  {
    TruncOfMultiple(TruncDiv(t, d), d);
  }

  /** Rounding moves toward zero, by less than one duration. */
  lemma RoundDownShrinks(t: int, d: int)
    requires d != 0
    ensures t >= 0 ==> 0 <= RoundDown(t, d) <= t && t < RoundDown(t, d) + Abs(d)
    ensures t <= 0 ==> t <= RoundDown(t, d) <= 0
  {
    RoundDownIs(t, d);
    MulMono(Abs(d), 0, Abs(t) / Abs(d));
  }

  lemma RoundDownIs(t: int, d: int)
    requires d != 0
    ensures RoundDown(t, d) == if t >= 0 then Abs(d) * (Abs(t) / Abs(d)) else 0 - Abs(d) * (Abs(t) / Abs(d))
  {
    var q := Abs(t) / Abs(d);
    if d > 0 && t >= 0 {
      assert q * d == d * q;
    } else if d > 0 {
      assert (-q) * d == -(d * q);
    } else if t >= 0 {
      assert (-q) * d == (-d) * q;
    } else {
      assert q * d == -((-d) * q);
    }
  }

  // ---------------------------------------------------------------------------------------------
  // What a location id depends on

  /** `get_hash_for_signing`. */
  function HashForSigning(h: Hasher, l: BucketLocation): bytes {
    h([Code(l.bucketType)] + l.baseId + I64ToBe(l.duration) + I64ToBe(l.bucketTime))
  }

  /** Laid out as 1, 32, 8 and 8 bytes. */
  predicate IsLayout(s: bytes, b: BucketType, baseId: Id, duration: i64, bucketTime: i64) {
    && |s| == 49 && s[0] == (match b case User => 0 case Hashtag => 1 case Mention => 2 case ReplyToPost => 3 case Sequel => 4)
    && s[1..33] == baseId && I64FromBe(s[33..41]) == duration && I64FromBe(s[41..]) == bucketTime
  }

  lemma LayoutIsInjective(s: bytes, b: BucketType, baseId: Id, d: i64, t: i64, s': bytes, b': BucketType, baseId': Id, d': i64, t': i64)
    requires IsLayout(s, b, baseId, d, t) && IsLayout(s', b', baseId', d', t')
    ensures s == s' <==> (b, baseId, d, t) == (b', baseId', d', t')
  {
    if (b, baseId, d, t) == (b', baseId', d', t') {
      I64CodecIsBijective(d, s[33..41]);
      I64CodecIsBijective(d, s'[33..41]);
      I64CodecIsBijective(t, s[41..]);
      I64CodecIsBijective(t, s'[41..]);
      hide I64FromBe, I64ToBe;
      assert s == [s[0]] + s[1..33] + s[33..41] + s[41..];
      assert s' == [s'[0]] + s'[1..33] + s'[33..41] + s'[41..];
    }
  }

  /** A location id is the hash of its four fields, laid out as the type's number, 32, 8 and 8 bytes. */
  lemma LocationIdLayout(h: Hasher, b: BucketType, baseId: Id, d: i64, t: i64) returns (s: bytes)
    ensures IsLayout(s, b, baseId, d, t) && LocationId(h, b, baseId, d, t) == h(s)
    ensures forall id: Id :: HashForSigning(h, BucketLocation(b, baseId, d, t, id)) == h(s)
  {
    s := [Code(b)] + baseId + I64ToBe(d) + I64ToBe(t);
    assert s[1..33] == baseId && s[33..41] == I64ToBe(d) && s[41..] == I64ToBe(t);
    I64CodecIsBijective(d, s[33..41]);
    I64CodecIsBijective(t, s[41..]);
  }

  function Bit(one: bool): Id {
    seq(32, _ => if one then 1 else 0)
  }

  /** Every field counts: under some hash function any two different quadruples of fields have different location ids. */
  lemma LocationIdSeparates(b: BucketType, baseId: Id, d: i64, t: i64, b': BucketType, baseId': Id, d': i64, t': i64)
    requires b != b' || baseId != baseId' || d != d' || t != t'
    ensures exists h: Hasher :: LocationId(h, b, baseId, d, t) != LocationId(h, b', baseId', d', t')
  {
    var any: Hasher := _ => Bit(true);
    var s := LocationIdLayout(any, b, baseId, d, t);
    var h: Hasher := x => Bit(x == s);
    var x := LocationIdLayout(h, b, baseId, d, t);
    var y := LocationIdLayout(h, b', baseId', d', t');
    LayoutIsInjective(s, b, baseId, d, t, x, b, baseId, d, t);
    LayoutIsInjective(s, b, baseId, d, t, y, b', baseId', d', t');
    assert Bit(true)[0] != Bit(false)[0];
    assert LocationId(h, b, baseId, d, t) != LocationId(h, b', baseId', d', t');
  }

  /** What `validate` says of a copy of a location with other fields and the same id, under a hash function. */
  function ValidateCopy(h: Hasher, b: BucketType, baseId: Id, d: i64, t: i64, copy: BucketLocation): Outcome<BucketLocation>
    requires !DivisionPanics(t, d)
  {
    Validate(h, copy.(locationId := New(h, b, baseId, d, t).value.locationId))
  }

  /**
   * `validate` refuses every change of a field of a location made by `new`: a copy passes under every hash function
   * if and only if its type, base id and duration are the same and its time lies in the same bucket.
   */
  lemma ValidateRefusesChanges(b: BucketType, baseId: Id, d: i64, t: i64, copy: BucketLocation)
    requires !DivisionPanics(t, d) && !DivisionPanics(copy.bucketTime, copy.duration)
    ensures (exists h: Hasher :: ValidateCopy(h, b, baseId, d, t, copy) == Failed) <==>
              copy.bucketType != b || copy.baseId != baseId || copy.duration != d
              || RoundDown(copy.bucketTime, copy.duration) != RoundDown(t, d)
  {
    RoundDownShrinks(t, d);
    RoundDownShrinks(copy.bucketTime, copy.duration);
    var (start, start') := (RoundDown(t, d), RoundDown(copy.bucketTime, copy.duration));
    hide RoundDown, LocationId;
    if copy.bucketType != b || copy.baseId != baseId || copy.duration != d || start' != start {
      LocationIdSeparates(b, baseId, d, start, copy.bucketType, copy.baseId, copy.duration, start');
      var h: Hasher :| LocationId(h, b, baseId, d, start) != LocationId(h, copy.bucketType, copy.baseId, copy.duration, start');
      assert ValidateCopy(h, b, baseId, d, t, copy) == Failed;
    }
  }

  /** In particular a rounded time other than the location's own is refused under some hash function, and its own never. */
  lemma SwappedTimeIsRefused(b: BucketType, baseId: Id, d: i64, t: i64, copy: BucketLocation)
    requires !DivisionPanics(t, d) && copy.bucketType == b && copy.baseId == baseId && copy.duration == d
    requires !DivisionPanics(copy.bucketTime, d) && RoundDown(copy.bucketTime, d) == copy.bucketTime
    ensures (exists h: Hasher :: ValidateCopy(h, b, baseId, d, t, copy) == Failed) <==> copy.bucketTime != RoundDown(t, d)
  {
    hide RoundDown;
    ValidateRefusesChanges(b, baseId, d, t, copy);
  }

  lemma {:induction false} TypeNames(b: BucketType)
    ensures TypeOfName(TypeName(b)) == Some(b)
  {
  }

  // ---------------------------------------------------------------------------------------------
  // The attribute text

  lemma FiveFields(a: string, b: string, c: string, d: string, e: string)
    requires '~' !in a && '~' !in b && '~' !in c && '~' !in d && '~' !in e
    ensures SplitN(a + ['~'] + (b + ['~'] + (c + ['~'] + (d + ['~'] + e))), '~', 6) == [a, b, c, d, e]
  {
    hide SplitN;
    SplitNNone(e, '~', 2);
    SplitNFront(d, '~', e, 3);
    var de := d + ['~'] + e;
    SplitNFront(c, '~', de, 4);
    var cde := c + ['~'] + de;
    SplitNFront(b, '~', cde, 5);
    SplitNFront(a, '~', b + ['~'] + cde, 6);
  }

  lemma SixFields(a: string, b: string, c: string, d: string, e: string, suffix: string)
    requires '~' !in a && '~' !in b && '~' !in c && '~' !in d && '~' !in e
    ensures SplitN(a + ['~'] + (b + ['~'] + (c + ['~'] + (d + ['~'] + (e + ['~'] + suffix)))), '~', 6)
         == [a, b, c, d, e, suffix]
  {
    assert SplitN(suffix, '~', 1) == [suffix];
    hide SplitN;
    SplitNFront(e, '~', suffix, 2);
    var es := e + ['~'] + suffix;
    SplitNFront(d, '~', es, 3);
    var des := d + ['~'] + es;
    SplitNFront(c, '~', des, 4);
    var cdes := c + ['~'] + des;
    SplitNFront(b, '~', cdes, 5);
    SplitNFront(a, '~', b + ['~'] + cdes, 6);
  }

  lemma Regroup(a: string, b: string, c: string, d: string, e: string, suffix: string)
    ensures (a + ['~'] + (b + ['~'] + (c + ['~'] + (d + ['~'] + e)))) + (['~'] + suffix)
         == a + ['~'] + (b + ['~'] + (c + ['~'] + (d + ['~'] + (e + ['~'] + suffix))))
  {
    var left := a + ['~'] + (b + ['~'] + (c + ['~'] + (d + ['~'] + e)));
    assert left == a + ['~'] + b + ['~'] + c + ['~'] + d + ['~'] + e;
  }

  lemma TimeTextHasNoTilde(t: i64)
    ensures '~' !in TM.Display(t)
  {
    hide TM.StampOf, TM.DateText, TM.ClockText, TM.PadMillis, DecInt;
    var s := TM.StampOf(TM.Seconds(t));
    DecIntHasNoTilde(t);
    FieldsHaveNoTilde(s, TM.MillisPart(t));
    assert '~' !in TM.INVALID;
  }

  lemma FieldsHaveNoTilde(s: TM.Stamp, m: int)
    requires Calendar.ValidDate(s.date) && s.hour < 24 && s.minute < 60 && s.second < 60 && -1000 < m < 1000
    ensures '~' !in TM.DateText(s.date) && '~' !in TM.ClockText(s) && '~' !in TM.PadMillis(m)
  {
    hide DecInt;
    assert forall c :: IsDigit(c) ==> c != '~';
    DecIntHasNoTilde(s.date.year);
  }

  lemma DecIntHasNoTilde(n: int)
    ensures '~' !in DecInt(n)
  {
    var d := Dec(if n < 0 then -n else n);
    assert forall c :: IsDigit(c) ==> c != '~';
    assert '~' !in d;
  }

  /** Reading an attribute back gives its fields, with or without an unknown sixth one. */
  lemma AttrFields(h: Hasher, l: BucketLocation, suffix: string)
    ensures FromHtmlAttr(h, ToHtmlAttr(l))
         == FromFields(h, Some(l.bucketType), Ok(l.baseId), DM.ParseText(DM.DisplayText(l.duration)),
                       TM.Parse(TM.Display(l.bucketTime)))
    ensures FromHtmlAttr(h, ToHtmlAttr(l) + (['~'] + suffix)) == FromHtmlAttr(h, ToHtmlAttr(l))
  {
    hide DM.DisplayText, DM.ParseText, TM.Parse, TM.Display, TypeName, Hex, New, UnHex;
    var name, id, d, t := TypeName(l.bucketType), Hex(l.baseId), DM.DisplayText(l.duration), TM.Display(l.bucketTime);
    TypeNames(l.bucketType);
    UnHexOfHex(l.baseId);
    DM.DisplayShape(l.duration);
    TimeTextHasNoTilde(l.bucketTime);
    FiveFields("1", name, id, d, t);
    SixFields("1", name, id, d, t, suffix);
    Regroup("1", name, id, d, t, suffix);
  }

  /** The attribute's five fields, by name. */
  lemma AttrLayout(l: BucketLocation)
    ensures SplitN(ToHtmlAttr(l), '~', 6) == ["1",
              match l.bucketType
              case User => "User" case Hashtag => "Hashtag" case Mention => "Mention"
              case ReplyToPost => "ReplyToPost" case Sequel => "Sequel",
              Hex(l.baseId), DM.DisplayText(l.duration), TM.Display(l.bucketTime)]
  {
    hide DM.DisplayText, TM.Display, Hex, SplitN;
    UnHexOfHex(l.baseId);
    DM.DisplayShape(l.duration);
    TimeTextHasNoTilde(l.bucketTime);
    FiveFields("1", TypeName(l.bucketType), Hex(l.baseId), DM.DisplayText(l.duration), TM.Display(l.bucketTime));
  }

  /** Exactly when a location made by New is read back: over every duration but zero and every instant. */
  lemma AttrRoundTrip(h: Hasher, b: BucketType, baseId: Id, duration: i64, t: i64, suffix: string)
    requires !DivisionPanics(t, duration)
    ensures var l := New(h, b, baseId, duration, t).value;
            && Validate(h, l) == Done(l)
            && (FromHtmlAttr(h, ToHtmlAttr(l)) == Done(l) <==> duration != I64_MIN && TM.RoundTrips(l.bucketTime))
            && FromHtmlAttr(h, ToHtmlAttr(l) + (['~'] + suffix)) == FromHtmlAttr(h, ToHtmlAttr(l))
  {
    hide DM.DisplayText, DM.ParseText, TM.Parse, TM.Display, TM.RoundTrips, ToHtmlAttr, FromHtmlAttr;
    RoundDownShrinks(t, duration);
    var l := New(h, b, baseId, duration, t).value;
    RoundDownIsIdempotent(t, duration);
    AttrFields(h, l, suffix);
    DM.ParseOfDisplay(duration);
    DM.ParseInvertsDisplay(duration);
    TM.ParseInvertsDisplay(l.bucketTime);
  }

  lemma YearsAreMonotone(t: i64, u: i64)
    requires 0 <= t <= u
    ensures TM.StampOf(TM.Seconds(t)).date.year <= TM.StampOf(TM.Seconds(u)).date.year
  {
    var d, e := TM.StampOf(TM.Seconds(t)).date, TM.StampOf(TM.Seconds(u)).date;
    Calendar.DayNumberIncreases(e, d);
  }

  /** Positive durations and in-range instants since the epoch are always read back, suffix or not. */
  lemma PositiveAttrRoundTrip(h: Hasher, b: BucketType, baseId: Id, duration: i64, t: i64, suffix: string)
    requires duration > 0 && t >= 0 && TM.InCalendar(t)
    ensures var l := New(h, b, baseId, duration, t).value;
            && Validate(h, l) == Done(l)
            && FromHtmlAttr(h, ToHtmlAttr(l)) == Done(l)
            && FromHtmlAttr(h, ToHtmlAttr(l) + (['~'] + suffix)) == Done(l)
  {
    hide ToHtmlAttr, FromHtmlAttr;
    RoundDownShrinks(t, duration);
    var l := New(h, b, baseId, duration, t).value;
    YearsAreMonotone(l.bucketTime, t);
    TM.YearOfTime(l.bucketTime);
    AttrRoundTrip(h, b, baseId, duration, t, suffix);
  }

  /** The fields before the time: at least five parts, version 1, a known type, an id and a duration. */
  predicate ReadsUpToTime(parts: seq<string>) {
    && |parts| >= 5 && parts[0] == "1" && TypeOfName(parts[1]).Some? && IdFromHex(parts[2]).Ok?
    && DM.ParseText(parts[3]).Ok?
  }

  /** Exactly when reading stops on a panic: the time text is cut inside a character, or it parses and the duration is zero. */
  lemma AttrPanicsExactly(h: Hasher, s: string)
    ensures var parts := SplitN(s, '~', 6);
            FromHtmlAttr(h, s) == Panicked <==>
              ReadsUpToTime(parts)
              && (TM.CutsCharacter(parts[4]) || (TM.Parse(parts[4]).Done? && DM.ParseText(parts[3]) == Ok(0)))
  {
    hide DM.ParseText, TM.Parse, TM.CutsCharacter, IdFromHex, TypeOfName;
    var parts := SplitN(s, '~', 6);
    if |parts| >= 5 {
      ParsedTimesAreShort(parts[4]);
      TM.ParsePanicsExactly(parts[4]);
    }
  }

  /** ASCII text stops the reader only through a zero duration. */
  lemma AsciiPanicsOnlyAtZero(h: Hasher, s: string)
    requires Utf8.IsAscii(s)
    ensures var parts := SplitN(s, '~', 6);
            FromHtmlAttr(h, s) == Panicked <==>
              ReadsUpToTime(parts) && TM.Parse(parts[4]).Done? && DM.ParseText(parts[3]) == Ok(0)
  {
    hide DM.ParseText, TM.Parse, TM.CutsCharacter, FromHtmlAttr, IdFromHex, TypeOfName;
    var parts := SplitN(s, '~', 6);
    AttrPanicsExactly(h, s);
    if ReadsUpToTime(parts) {
      TimeFieldIsAscii(s);
      TM.AsciiNeverCuts(parts[4]);
    }
  }

  lemma TimeFieldIsAscii(s: string)
    requires Utf8.IsAscii(s) && ReadsUpToTime(SplitN(s, '~', 6))
    ensures Utf8.IsAscii(SplitN(s, '~', 6)[4])
  {
    hide DM.ParseText, IdFromHex, TypeOfName, SplitN;
    SplitNCharacters(s, '~', 6, 4);
  }

  /** Such an attribute: a user's bucket of duration 0 at the epoch. */
  lemma ZeroDurationExample(h: Hasher, id: Id)
    ensures FromHtmlAttr(h, "1~User~" + Hex(id) + "~0~" + "19700101.000000.000") == Panicked
  {
    var l := BucketLocation(User, id, 0, 0, id);
    AttrFields(h, l, "");
    ZeroDurationText(l);
    hide TM.Display, DM.DisplayText, FromHtmlAttr, ToHtmlAttr, Hex, DM.ParseText, TM.Parse;
    DM.ParseOfDisplay(0);
    TM.SinceEpochRoundTrips(0) by {
      TM.EpochStamp();
    }
  }

  lemma CutAttr(h: Hasher, id: Id, time: string)
    requires '~' !in time && TM.Parse(time) == Panicked
    ensures FromHtmlAttr(h, "1~User~" + Hex(id) + "~1D~" + time) == Panicked
  {
    OneDay();
    HexReads(id);
    hide DM.ParseText, TM.Parse, IdFromHex, Hex, SplitN;
    Join(Hex(id), "1D", time);
    assert "~" + "1D" + "~" == "~1D~";
    FiveFields("1", "User", Hex(id), "1D", time);
  }

  /** Text that no location prints: its time is four euro signs and some zeros. */
  lemma CutCharacterExample(h: Hasher, id: Id)
    ensures FromHtmlAttr(h, "1~User~" + Hex(id) + "~1D~" + "\U{20AC}\U{20AC}\U{20AC}\U{20AC}.000000.000") == Panicked
  {
    TM.EuroSignsPanic();
    hide TM.Parse, FromHtmlAttr, Hex;
    CutAttr(h, id, "\U{20AC}\U{20AC}\U{20AC}\U{20AC}.000000.000");
  }

  lemma HexReads(id: Id)
    ensures IdFromHex(Hex(id)) == Ok(id) && '~' !in Hex(id)
  {
    UnHexOfHex(id);
  }

  lemma OneDay()
    ensures DM.ParseText("1D").Ok? && '~' !in "1D"
  {
  }

  lemma ZeroDurationText(l: BucketLocation)
    requires l.bucketType == User && l.duration == 0 && l.bucketTime == 0
    ensures ToHtmlAttr(l) == "1~User~" + Hex(l.baseId) + "~0~" + "19700101.000000.000"
  {
    TM.EpochText();
    ZeroText();
    hide TM.Display, DM.DisplayText, Hex;
    Join(Hex(l.baseId), DM.DisplayText(0), TM.Display(0));
  }

  lemma ZeroText()
    ensures DM.DisplayText(0) == "0" && "~" + DM.DisplayText(0) + "~" == "~0~"
  {
    DM.NothingToPrint(DM.UNITS);
  }

  lemma Join(id: string, duration: string, time: string)
    ensures "1" + ['~'] + ("User" + ['~'] + (id + ['~'] + (duration + ['~'] + time)))
         == "1~User~" + id + ("~" + duration + "~") + time
  {
    var start := "1" + ['~'] + ("User" + ['~']);
    assert start == "1~User~" && "~" + duration + "~" == ['~'] + (duration + ['~']);
    Associate("1" + ['~'], "User" + ['~'], id + ("~" + duration + "~") + time);
    assert id + ['~'] + (duration + ['~'] + time) == id + ("~" + duration + "~") + time;
  }

  lemma ParsedTimesAreShort(s: string)
    ensures TM.Parse(s).Done? ==> TM.Parse(s).value != I64_MIN
  {
    hide TM.ParseFields;
    var parts := Split(s, '.');
    if TM.HasShape(parts) {
      var fields := TM.ParseFields(parts[0], parts[1], parts[2]);
      if fields.Done? && TM.ValidStamp(fields.value.0) {
        TM.TimestampFits(fields.value.0);
      }
    }
  }

  // ---------------------------------------------------------------------------------------------
  // The ladder

  const BUCKET_DURATIONS: seq<nat> :=
    [29_030_400_000, 2_419_200_000, 604_800_000, 86_400_000, 21_600_000, 3_600_000, 900_000, 300_000, 60_000]

  function DurationsFor(b: BucketType): seq<nat> {
    if b == Sequel then BUCKET_DURATIONS else BUCKET_DURATIONS[1..]
  }

  /** Each level is a positive whole multiple of the next. */
  ghost predicate Nested(ds: seq<nat>) {
    && (forall i :: 0 <= i < |ds| ==> ds[i] > 0)
    && (forall i :: 0 <= i < |ds| - 1 ==> ds[i] % ds[i + 1] == 0)
  }

  lemma LadderIsNested(b: BucketType)
    ensures Nested(DurationsFor(b)) && DurationsFor(b)[|DurationsFor(b)| - 1] == DM.MILLIS_IN_MINUTE
  {
    var ds := DurationsFor(b);
    forall i | 0 <= i < |ds| - 1 ensures ds[i] % ds[i + 1] == 0 {
      LadderStep(if b == Sequel then i else i + 1);
    }
  }

  /** Sequel buckets start at a year, all others at a month, and each ladder goes down to a minute. */
  lemma LadderLevels(b: BucketType)
    ensures DurationsFor(b) ==
      (if b == Sequel then [12 * DM.MILLIS_IN_MONTH] else [])
      + [4 * DM.MILLIS_IN_WEEK, 7 * DM.MILLIS_IN_DAY, 24 * DM.MILLIS_IN_HOUR, 6 * DM.MILLIS_IN_HOUR, 60 * DM.MILLIS_IN_MINUTE,
         15 * DM.MILLIS_IN_MINUTE, 5 * DM.MILLIS_IN_MINUTE, 60 * DM.MILLIS_IN_SECOND]
    ensures DM.MILLIS_IN_SECOND == 1000
  {
  }

  lemma LadderStep(i: nat)
    requires i < 8
    ensures BUCKET_DURATIONS[i] % BUCKET_DURATIONS[i + 1] == 0
  {
    if i < 4 {
      assert i == 0 || i == 1 || i == 2 || i == 3;
    } else {
      assert i == 4 || i == 5 || i == 6 || i == 7;
    }
  }

  /** A multiple of the coarser duration is a multiple of the finer one. */
  lemma CoarseIsFine(s: int, coarse: nat, fine: nat)
    requires fine > 0 && coarse > 0 && coarse % fine == 0 && s % coarse == 0
    ensures s % fine == 0
  {
    var k, m := coarse / fine, s / coarse;
    assert coarse == fine * k && s == coarse * m;
    assert s == fine * (k * m) by {
      assert (fine * k) * m == fine * (k * m);
    }
    MultipleHasNoRemainder(fine, k * m);
  }

  // Where rounding puts a time, whatever its sign.

  lemma RoundedTime(t: int, d: nat)
    requires d > 0
    ensures RoundDown(t, d) % d == 0 && t - d < RoundDown(t, d) < t + d
    ensures if t >= 0 then 0 <= RoundDown(t, d) <= t else t <= RoundDown(t, d) <= 0
  {
    RoundDownIs(t, d);
    RoundDownShrinks(t, d);
    if t >= 0 {
      MultipleHasNoRemainder(d, t / d);
    } else {
      MultipleHasNoRemainder(d, -(-t / d));
      assert d * -(-t / d) == -(d * (-t / d));
    }
  }

  /** A multiple of d that is not after t is not after t's rounding. */
  lemma RoundedIsLatest(t: int, s: int, d: nat)
    requires d > 0 && s % d == 0 && s <= t
    ensures s <= RoundDown(t, d)
  {
    hide RoundDown;
    RoundedTime(t, d);
    if s > RoundDown(t, d) {
      StepDown(RoundDown(t, d), s, d);
    }
  }

  lemma RoundingIsMonotone(t: int, u: int, d: nat)
    requires d > 0 && t <= u
    ensures RoundDown(t, d) <= RoundDown(u, d)
  {
    hide RoundDown;
    RoundedTime(t, d);
    RoundedTime(u, d);
    if RoundDown(t, d) > RoundDown(u, d) {
      StepDown(RoundDown(u, d), RoundDown(t, d), d);
    }
  }

  /** Before the epoch rounding goes up: to the earliest multiple not before the time. */
  lemma RoundedIsEarliest(t: int, s: int, d: nat)
    requires d > 0 && s % d == 0 && t <= s && t <= 0
    ensures RoundDown(t, d) <= s
  {
    hide RoundDown;
    RoundedTime(t, d);
    if s < RoundDown(t, d) {
      StepDown(s, RoundDown(t, d), d);
    }
  }

  /** The bucket of s: from s on since the epoch, up to s before it. */
  predicate InBucket(t: int, s: int, d: nat) {
    if t >= 0 then s <= t < s + d else s - d < t <= s
  }

  /** A time lies in the bucket of s exactly when it rounds to s. */
  lemma BucketHolds(t: int, s: int, d: nat)
    requires d > 0 && s % d == 0
    ensures RoundDown(t, d) == s <==> InBucket(t, s, d)
  {
    hide RoundDown;
    RoundedTime(t, d);
    if s < RoundDown(t, d) {
      StepDown(s, RoundDown(t, d), d);
    } else if RoundDown(t, d) < s {
      StepDown(RoundDown(t, d), s, d);
    }
  }

  /** Rounding through a finer level first changes nothing, for times of either sign. */
  lemma RoundingComposes(t: int, coarse: nat, fine: nat)
    requires fine > 0 && coarse > 0 && coarse % fine == 0
    ensures RoundDown(RoundDown(t, fine), coarse) == RoundDown(t, coarse)
  {
    hide RoundDown;
    FinerIsBetween(t, coarse, fine);
    RoundedTime(t, coarse);
    BucketHolds(RoundDown(t, fine), RoundDown(t, coarse), coarse);
  }

  lemma FinerIsBetween(t: int, coarse: nat, fine: nat)
    requires fine > 0 && coarse > 0 && coarse % fine == 0
    ensures if t >= 0 then 0 <= RoundDown(t, coarse) <= RoundDown(t, fine) <= t
            else t <= RoundDown(t, fine) <= RoundDown(t, coarse) <= 0
  {
    hide RoundDown;
    RoundedTime(t, coarse);
    RoundedTime(t, fine);
    CoarseIsFine(RoundDown(t, coarse), coarse, fine);
    if t >= 0 {
      RoundedIsLatest(t, RoundDown(t, coarse), fine);
    } else {
      RoundedIsEarliest(t, RoundDown(t, coarse), fine);
    }
  }

  /** The finer buckets inside a bucket cover it without gap or overlap: forwards since the epoch, backwards before it. */
  lemma ChildrenTile(t: int, s: int, coarse: nat, fine: nat)
    requires fine > 0 && coarse > 0 && coarse % fine == 0 && s % coarse == 0
    ensures var r := RoundDown(t, fine);
            && r % fine == 0 && InBucket(t, r, fine)
            && (InBucket(t, s, coarse) <==> if t >= 0 then s <= r && r + fine <= s + coarse
                                            else s - coarse <= r - fine && r <= s)
  {
    hide RoundDown;
    var r := RoundDown(t, fine);
    RoundedTime(t, fine);
    BucketHolds(t, r, fine);
    CoarseIsFine(s, coarse, fine);
    if InBucket(t, s, coarse) {
      if t >= 0 {
        RoundedIsLatest(t, s, fine);
        SumIsMultiple(s, coarse, fine);
        StepDown(r, s + coarse, fine);
      } else {
        RoundedIsEarliest(t, s, fine);
        DifferenceIsMultiple(s, coarse, fine);
        StepDown(s - coarse, r, fine);
      }
    }
  }
}
