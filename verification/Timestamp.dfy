/**
 * Reading the times a user types: RFC 3339 text and relative delays. Text is indexed
 * by byte; every byte outside ASCII fails every test below, so a `string` of bytes
 * loses nothing.
 */
module Timestamp {
  import opened Results
  import opened Decimal
  import opened Calendar

  function SignedOffset(sign: char, oh: int, om: int): int {
    var mag := oh * 3_600 + om * 60;
    if sign == '+' then mag else -mag
  }

  /** Seconds east of UTC from the zone part, which starts at byte 19. */
  function ParseOffset(s: string): Option<int>
    requires |s| >= 20
  {
    if s[19] == 'Z' then Some(0)
    else if s[19] == '+' || s[19] == '-' then
      if |s| < 25 || s[22] != ':' then None
      else
        match (ParseI64(s[20..22]), ParseI64(s[23..25])) {
          case (Some(oh), Some(om)) => Some(SignedOffset(s[19], oh, om))
          case _ => None
        }
    else None
  }

  /** `time_parse_rfc3339` */
  function ParseRfc3339(s: string): Option<int> {
    if |s| < 20 || s[4] != '-' || s[7] != '-' || s[10] != 'T' then None
    else
      match (ParseI64(s[0..4]), ParseI64(s[5..7]), ParseI64(s[8..10]),
             ParseI64(s[11..13]), ParseI64(s[14..16]), ParseI64(s[17..19]), ParseOffset(s)) {
        case (Some(year), Some(month), Some(day), Some(hour), Some(minute), Some(second), Some(offset)) =>
          Some(DaysFromCivil(year, month, day) * 86_400 + hour * 3_600 + minute * 60 + second - offset)
        case _ => None
      }
  }

  // ----- section 5.6 of RFC 3339, without fractions -----

  datatype Zone = Utc | East(hours: int, minutes: int) | West(hours: int, minutes: int)

  datatype DateTime = DateTime(date: Date, hour: int, minute: int, second: int, zone: Zone)

  predicate ValidZone(z: Zone) {
    z.Utc? || (0 <= z.hours <= 23 && 0 <= z.minutes <= 59)
  }

  /** Second 60 is a leap second. */
  predicate ValidDateTime(t: DateTime) {
    && Valid(t.date) && 0 <= t.date.year <= 9999
    && 0 <= t.hour <= 23 && 0 <= t.minute <= 59 && 0 <= t.second <= 60
    && ValidZone(t.zone)
  }

  function PrintZone(z: Zone): string
    requires ValidZone(z)
  {
    match z
    case Utc => "Z"
    case East(h, m) => "+" + Padded(h, 2) + ":" + Padded(m, 2)
    case West(h, m) => "-" + Padded(h, 2) + ":" + Padded(m, 2)
  }

  function PrintDateTime(t: DateTime): string
    requires ValidDateTime(t)
  {
    Padded(t.date.year, 4) + "-" + Padded(t.date.month, 2) + "-" + Padded(t.date.day, 2) + "T"
    + Padded(t.hour, 2) + ":" + Padded(t.minute, 2) + ":" + Padded(t.second, 2) + PrintZone(t.zone)
  }

  function ZoneSeconds(z: Zone): int {
    match z
    case Utc => 0
    case East(h, m) => h * 3_600 + m * 60
    case West(h, m) => -(h * 3_600 + m * 60)
  }

  /**
   * `n` is the number of calendar days from 1970-01-01 to `d`, counted by stepping one
   * day at a time from the earlier to the later date.
   */
  ghost predicate DaysApart(d: Date, n: int)
    requires Valid(d)
  {
    if n >= 0 then Walk(EPOCH, n) == d else Walk(d, -n) == EPOCH
  }

  lemma PaddedField(n: nat, width: nat)
    requires 1 <= width <= 4 && n < Power10(width)
    ensures ParseI64(Padded(n, width)) == Some(n)
  {
    assert Power10(4) == 10 * (10 * (10 * (10 * Power10(0))));
    ParseOfPadded(n, width);
  }

  lemma TwoDigits(n: nat)
    requires n < 100
    ensures ParseI64(Padded(n, 2)) == Some(n) && Value(Padded(n, 2)) == n
  {
    assert Power10(2) == 10 * (10 * Power10(0));
    ValueOfPadded(n, 2);
    PaddedField(n, 2);
  }

  lemma FourDigits(n: nat)
    requires n < 10000
    ensures ParseI64(Padded(n, 4)) == Some(n) && Value(Padded(n, 4)) == n
  {
    assert Power10(4) == 10 * (10 * (10 * (10 * Power10(0))));
    ValueOfPadded(n, 4);
    PaddedField(n, 4);
  }

  /** Where the fields stand in the printed text. */
  lemma PrintedFields(t: DateTime)
    requires ValidDateTime(t)
    ensures var s := PrintDateTime(t);
            && |s| >= 20 && s[4] == '-' && s[7] == '-' && s[10] == 'T'
            && s[0..4] == Padded(t.date.year, 4) && s[5..7] == Padded(t.date.month, 2) &&
                    s[8..10] == Padded(t.date.day, 2)
            && s[11..13] == Padded(t.hour, 2) && s[14..16] == Padded(t.minute, 2) && s[17..19] == Padded(t.second, 2)
            && s[19..] == PrintZone(t.zone)
  {
    hide Padded;
  }

  lemma PrintedZoneFields(z: Zone)
    requires ValidZone(z) && !z.Utc?
    ensures var p := PrintZone(z);
            && |p| == 6 && p[0] == (if z.East? then '+' else '-') && p[3] == ':'
            && p[1..3] == Padded(z.hours, 2) && p[4..6] == Padded(z.minutes, 2)
  {
    hide Padded;
  }

  lemma SliceOfTail(s: string, k: nat, lo: nat, hi: nat)
    requires lo <= hi && k + hi <= |s|
    ensures s[k..][lo..hi] == s[k + lo..k + hi]
  {
  }

  lemma ParseNumericOffset(s: string, oh: nat, om: nat)
    requires |s| == 25 && (s[19] == '+' || s[19] == '-') && s[22] == ':'
    requires oh < 100 && om < 100 && s[20..22] == Padded(oh, 2) && s[23..25] == Padded(om, 2)
    ensures ParseOffset(s) == Some(SignedOffset(s[19], oh, om))
  {
    hide Padded, ParseI64, SignedOffset;
    TwoDigits(oh);
    TwoDigits(om);
  }

  lemma PrintedUtc(s: string)
    requires |s| >= 20 && s[19..] == PrintZone(Utc)
    ensures ParseOffset(s) == Some(0)
  {
    assert s[19] == s[19..][0];
  }

  lemma PrintedZone(s: string, z: Zone)
    requires ValidZone(z) && |s| >= 20 && s[19..] == PrintZone(z)
    ensures ParseOffset(s) == Some(ZoneSeconds(z))
  {
    hide ParseOffset, Padded, PrintZone;
    if z.Utc? {
      PrintedUtc(s);
    } else {
      PrintedZoneFields(z);
      assert s[19..][0] == s[19] && s[19..][3] == s[22];
      SliceOfTail(s, 19, 1, 3);
      SliceOfTail(s, 19, 4, 6);
      ParseNumericOffset(s, z.hours, z.minutes);
    }
  }

  /**
   * Every fraction-free date-time, printed and parsed, gives its exact epoch second:
   * the calendar days from 1970-01-01 counted one by one, the time of day, less the offset.
   */
  lemma ParseOfPrint(t: DateTime, days: int)
    requires ValidDateTime(t) && DaysApart(t.date, days)
    ensures ParseRfc3339(PrintDateTime(t)) ==
            Some(days * 86_400 + t.hour * 3_600 + t.minute * 60 + t.second - ZoneSeconds(t.zone))
  {
    hide PrintDateTime, Padded, ParseI64, DaysFromCivil, ParseOffset;
    PrintedFields(t);
    PrintedZone(PrintDateTime(t), t.zone);
    FourDigits(t.date.year);
    TwoDigits(t.date.month);
    TwoDigits(t.date.day);
    TwoDigits(t.hour);
    TwoDigits(t.minute);
    TwoDigits(t.second);
    DaysApartIsDayNumber(t.date, days);
  }

  /** Counting days is what the closed form does, and nothing else. */
  lemma DaysApartIsDayNumber(d: Date, n: int)
    requires Valid(d)
    ensures DaysApart(d, n) <==> n == DayNumber(d)
  {
    EpochIsZero();
    hide DaysFromCivil;
    DayNumberCountsDays(d);
    if n >= 0 {
      WalkAddsDays(EPOCH, n);
    } else {
      WalkAddsDays(d, -n);
    }
  }

  // ----- one instant, several clocks -----

  /** A wall clock without leap seconds. */
  datatype Clock = Clock(date: Date, hour: int, minute: int, second: int)

  predicate ValidClock(c: Clock) {
    Valid(c.date) && 0 <= c.hour <= 23 && 0 <= c.minute <= 59 && 0 <= c.second <= 59
  }

  function NextSecond(c: Clock): (next: Clock)
    requires ValidClock(c)
    ensures ValidClock(next)
  {
    if c.second < 59 then c.(second := c.second + 1)
    else if c.minute < 59 then c.(minute := c.minute + 1, second := 0)
    else if c.hour < 23 then c.(hour := c.hour + 1, minute := 0, second := 0)
    else Clock(NextDay(c.date), 0, 0, 0)
  }

  function WalkSeconds(c: Clock, n: nat): (end: Clock)
    requires ValidClock(c)
    ensures ValidClock(end)
  {
    if n == 0 then c else NextSecond(WalkSeconds(c, n - 1))
  }

  function ClockOf(t: DateTime): Clock { Clock(t.date, t.hour, t.minute, t.second) }

  function ClockSeconds(c: Clock): int { DayNumber(c.date) * 86_400 + c.hour * 3_600 + c.minute * 60 + c.second }

  lemma {:induction false} WalkSecondsAdds(c: Clock, n: nat)
    requires ValidClock(c)
    ensures ClockSeconds(WalkSeconds(c, n)) == ClockSeconds(c) + n
  {
    hide DayNumber, NextDay;
    if n > 0 {
      WalkSecondsAdds(c, n - 1);
      NextDayAddsOne(WalkSeconds(c, n - 1).date);
    }
  }

  lemma ParseOfPrintClock(t: DateTime)
    requires ValidDateTime(t)
    ensures ParseRfc3339(PrintDateTime(t)) == Some(ClockSeconds(ClockOf(t)) - ZoneSeconds(t.zone))
  {
    hide PrintDateTime, ParseRfc3339, DaysFromCivil;
    DaysApartIsDayNumber(t.date, DayNumber(t.date));
    ParseOfPrint(t, DayNumber(t.date));
  }

  /** A clock `k` seconds further east shows the time `k` seconds later; both texts parse to the same epoch second. */
  lemma EqualInstantsParseEqual(t: DateTime, u: DateTime, k: nat)
    requires ValidDateTime(t) && ValidDateTime(u) && t.second < 60
    requires ZoneSeconds(u.zone) == ZoneSeconds(t.zone) + k
    requires ClockOf(u) == WalkSeconds(ClockOf(t), k)
    ensures ParseRfc3339(PrintDateTime(t)) == ParseRfc3339(PrintDateTime(u))
  {
    hide PrintDateTime, ParseRfc3339, ClockSeconds;
    ParseOfPrintClock(t);
    ParseOfPrintClock(u);
    WalkSecondsAdds(ClockOf(t), k);
  }

  // ----- what else the parser lets through -----

  /** Every byte of `s` is what the grammar of section 5.6 asks for. */
  predicate StrictShape(s: string) {
    && (|s| == 20 || |s| == 25)
    && s[4] == '-' && s[7] == '-' && s[10] == 'T' && s[13] == ':' && s[16] == ':'
    && AllDigits(s[0..4]) && AllDigits(s[5..7]) && AllDigits(s[8..10])
    && AllDigits(s[11..13]) && AllDigits(s[14..16]) && AllDigits(s[17..19])
    && Valid(Date(Value(s[0..4]), Value(s[5..7]), Value(s[8..10])))
    && Value(s[11..13]) <= 23 && Value(s[14..16]) <= 59 && Value(s[17..19]) <= 60
    && StrictZone(s[19..])
  }

  predicate StrictZone(z: string) {
    z == "Z" || (
      && |z| == 6 && (z[0] == '+' || z[0] == '-') && z[3] == ':'
      && AllDigits(z[1..3]) && AllDigits(z[4..6]) && Value(z[1..3]) <= 23 && Value(z[4..6]) <= 59)
  }

  function SpelledZone(z: string): Zone
    requires StrictZone(z)
  {
    if z == "Z" then Utc
    else if z[0] == '+' then East(Value(z[1..3]), Value(z[4..6]))
    else West(Value(z[1..3]), Value(z[4..6]))
  }

  /** The date-time a strictly shaped text spells. */
  function Spelled(s: string): DateTime
    requires StrictShape(s)
  {
    DateTime(Date(Value(s[0..4]), Value(s[5..7]), Value(s[8..10])),
             Value(s[11..13]), Value(s[14..16]), Value(s[17..19]), SpelledZone(s[19..]))
  }

  lemma PrintOfSpelledZone(z: string)
    requires StrictZone(z)
    ensures ValidZone(SpelledZone(z)) && PrintZone(SpelledZone(z)) == z
  {
    if z != "Z" {
      PaddedOfValue(z[1..3]);
      PaddedOfValue(z[4..6]);
      hide Padded, Value;
      assert z == [z[0]] + z[1..3] + ":" + z[4..6];
    }
  }

  lemma SpelledZoneIsStrict(z: Zone)
    requires ValidZone(z)
    ensures StrictZone(PrintZone(z))
  {
    if !z.Utc? {
      PrintedZoneFields(z);
      TwoDigits(z.hours);
      TwoDigits(z.minutes);
      hide PrintZone, Padded;
    }
  }

  lemma PowersOfTen()
    ensures Power10(2) == 100 && Power10(4) == 10000
  {
    assert Power10(4) == 10 * (10 * (10 * (10 * Power10(0))));
  }

  lemma CutAtSeparators(s: string)
    requires |s| >= 19
    requires s[4] == '-' && s[7] == '-' && s[10] == 'T' && s[13] == ':' && s[16] == ':'
    ensures s == s[0..4] + "-" + s[5..7] + "-" + s[8..10] + "T" + s[11..13] + ":" + s[14..16] + ":" + s[17..19] +
            s[19..]
  {
  }

  lemma PrintOfSpelled(s: string)
    requires StrictShape(s)
    ensures ValidDateTime(Spelled(s)) && PrintDateTime(Spelled(s)) == s
  {
    hide Padded, Value, Power10, StrictZone, SpelledZone, PrintZone, Valid, AllDigits, ValidZone;
    PowersOfTen();
    CutAtSeparators(s);
    PrintOfSpelledZone(s[19..]);
    PaddedOfValue(s[0..4]);
    PaddedOfValue(s[5..7]);
    PaddedOfValue(s[8..10]);
    PaddedOfValue(s[11..13]);
    PaddedOfValue(s[14..16]);
    PaddedOfValue(s[17..19]);
  }

  lemma SeparatorsOfPrint(t: DateTime)
    requires ValidDateTime(t)
    ensures |PrintDateTime(t)| == (if t.zone.Utc? then 20 else 25)
    ensures PrintDateTime(t)[13] == ':' && PrintDateTime(t)[16] == ':'
  {
    hide Padded;
  }

  lemma PrintIsStrict(t: DateTime)
    requires ValidDateTime(t)
    ensures StrictShape(PrintDateTime(t))
  {
    hide Padded, PrintDateTime, Value, StrictZone;
    PrintedFields(t);
    SeparatorsOfPrint(t);
    SpelledZoneIsStrict(t.zone);
    FourDigits(t.date.year);
    TwoDigits(t.date.month);
    TwoDigits(t.date.day);
    TwoDigits(t.hour);
    TwoDigits(t.minute);
    TwoDigits(t.second);
  }

  lemma SlicesKeep(s: string, x: char, y: char)
    requires |s| >= 20
    ensures var s' := s[13 := x][16 := y];
            && s'[0..4] == s[0..4] && s'[5..7] == s[5..7] && s'[8..10] == s[8..10]
            && s'[11..13] == s[11..13] && s'[14..16] == s[14..16] && s'[17..19] == s[17..19]
            && s'[4] == s[4] && s'[7] == s[7] && s'[10] == s[10] && s'[13] == x
  {
  }

  lemma OffsetKeeps(s: string, x: char, y: char)
    requires |s| >= 20
    ensures ParseOffset(s[13 := x][16 := y]) == ParseOffset(s)
  {
    hide ParseI64;
    var s' := s[13 := x][16 := y];
    if |s| >= 25 {
      assert s'[20..22] == s[20..22] && s'[23..25] == s[23..25];
    }
  }

  /**
   * The doc comment promises None for anything malformed. The parser does not look at
   * bytes 13 and 16: whatever stands there, the text parses to the same second.
   */
  lemma SeparatorsAreIgnored(t: DateTime, x: char, y: char)
    requires ValidDateTime(t)
    ensures |PrintDateTime(t)| >= 20
    ensures ParseRfc3339(PrintDateTime(t)[13 := x][16 := y]) == ParseRfc3339(PrintDateTime(t))
    ensures ParseRfc3339(PrintDateTime(t)).Some?
    ensures x != ':' ==> !StrictShape(PrintDateTime(t)[13 := x][16 := y])
  {
    hide PrintDateTime, ParseI64, DaysFromCivil, ZoneSeconds, ClockSeconds, ParseOffset, AllDigits, Value, StrictZone,
        Valid;
    SeparatorsOfPrint(t);
    ParseOfPrintClock(t);
    SlicesKeep(PrintDateTime(t), x, y);
    OffsetKeeps(PrintDateTime(t), x, y);
  }

  /**
   * Accepted text is well formed exactly when every separator, digit and range is
   * checked: a text is some valid date-time's print if and only if it has the strict
   * shape, and then the parser accepts it.
   */
  lemma WellFormedIffStrict(s: string)
    ensures StrictShape(s) <==> exists t :: ValidDateTime(t) && PrintDateTime(t) == s
    ensures StrictShape(s) ==> ParseRfc3339(s).Some?
  {
    hide StrictShape, PrintDateTime, ParseRfc3339, ValidDateTime, Spelled;
    if StrictShape(s) {
      PrintOfSpelled(s);
      ParseOfPrintClock(Spelled(s));
    }
    forall t | ValidDateTime(t) && PrintDateTime(t) == s ensures StrictShape(s) {
      PrintIsStrict(t);
    }
  }

  predicate Signed(field: string) { |field| > 0 && (field[0] == '+' || field[0] == '-') }

  /** An optional sign and then nothing but digits, at least one. */
  predicate SignedDigits(field: string) {
    var digits := if Signed(field) then field[1..] else field;
    digits != "" && AllDigits(digits)
  }

  /** Every test that the parser makes, and no other. */
  predicate LooseShape(s: string) {
    && |s| >= 20 && s[4] == '-' && s[7] == '-' && s[10] == 'T'
    && SignedDigits(s[0..4]) && SignedDigits(s[5..7]) && SignedDigits(s[8..10])
    && SignedDigits(s[11..13]) && SignedDigits(s[14..16]) && SignedDigits(s[17..19])
    && LooseZone(s[19..])
  }

  predicate LooseZone(z: string) {
    z != "" && (
      || z[0] == 'Z'
      || (Signed(z) && |z| >= 6 && z[3] == ':' && SignedDigits(z[1..3]) && SignedDigits(z[4..6])))
  }

  function Number(field: string): int {
    match ParseI64(field) case None => 0 case Some(n) => n
  }

  /** The zone's first letter decides how long it is; the parser looks at nothing after it. */
  predicate EndsWithZone(s: string)
    requires LooseShape(s)
  {
    |s| == if s[19] == 'Z' then 20 else 25
  }

  predicate NoSigns(s: string)
    requires LooseShape(s)
  {
    && !Signed(s[0..4]) && !Signed(s[5..7]) && !Signed(s[8..10])
    && !Signed(s[11..13]) && !Signed(s[14..16]) && !Signed(s[17..19])
    && (s[19] == 'Z' || (!Signed(s[19..][1..3]) && !Signed(s[19..][4..6])))
  }

  predicate FieldsInRange(s: string)
    requires LooseShape(s)
  {
    && Valid(Date(Number(s[0..4]), Number(s[5..7]), Number(s[8..10])))
    && 0 <= Number(s[11..13]) <= 23 && 0 <= Number(s[14..16]) <= 59 && 0 <= Number(s[17..19]) <= 60
    && (s[19] == 'Z' || (0 <= Number(s[19..][1..3]) <= 23 && 0 <= Number(s[19..][4..6]) <= 59))
  }

  lemma FieldCases(field: string)
    requires |field| == 2 || |field| == 4
    ensures ParseI64(field).Some? <==> SignedDigits(field)
    ensures AllDigits(field) <==> SignedDigits(field) && !Signed(field)
    ensures AllDigits(field) ==> Number(field) == Value(field)
  {
    PowersOfTen();
    if Signed(field) {
      assert !IsDigit(field[0]);
      if AllDigits(field[1..]) {
        SmallValue(field[1..]);
      }
    } else if AllDigits(field) {
      SmallValue(field);
    }
  }

  lemma SmallValue(digits: string)
    requires |digits| <= 4 && AllDigits(digits)
    ensures Value(digits) <= 9999
  {
    PaddedOfValue(digits);
    hide Value;
    assert Power10(4) == 10 * (10 * (10 * (10 * Power10(0))));
  }

  lemma ZoneCases(s: string)
    requires |s| >= 20
    ensures ParseOffset(s).Some? <==> LooseZone(s[19..])
    ensures StrictZone(s[19..]) <==>
            && LooseZone(s[19..]) && |s| == (if s[19] == 'Z' then 20 else 25)
            && (s[19] == 'Z' || (
                  && !Signed(s[19..][1..3]) && !Signed(s[19..][4..6])
                  && 0 <= Number(s[19..][1..3]) <= 23 && 0 <= Number(s[19..][4..6]) <= 59))
  {
    var z := s[19..];
    assert z[0] == s[19];
    if |s| >= 25 {
      assert z[3] == s[22];
      SliceOfTail(s, 19, 1, 3);
      SliceOfTail(s, 19, 4, 6);
      FieldCases(z[1..3]);
      FieldCases(z[4..6]);
    }
    hide ParseI64, SignedDigits, AllDigits, Number, Value;
  }

  /** The parser accepts exactly the loosely shaped texts. */
  lemma AcceptedIffLoose(s: string)
    ensures ParseRfc3339(s).Some? <==> LooseShape(s)
    ensures LooseShape(s) ==> |s| >= 20
  {
    hide ParseI64, SignedDigits, ParseOffset, LooseZone, DaysFromCivil;
    if |s| >= 20 {
      FieldCases(s[0..4]);
      FieldCases(s[5..7]);
      FieldCases(s[8..10]);
      FieldCases(s[11..13]);
      FieldCases(s[14..16]);
      FieldCases(s[17..19]);
      ZoneCases(s);
    }
  }

  lemma StrictIsLooseAndSound(s: string)
    ensures StrictShape(s) <==>
            LooseShape(s) && s[13] == ':' && s[16] == ':' && EndsWithZone(s) && NoSigns(s) && FieldsInRange(s)
  {
    hide ParseI64, SignedDigits, AllDigits, Signed, Number, Value, LooseZone, StrictZone, Valid;
    if |s| >= 20 {
      FieldCases(s[0..4]);
      FieldCases(s[5..7]);
      FieldCases(s[8..10]);
      FieldCases(s[11..13]);
      FieldCases(s[14..16]);
      FieldCases(s[17..19]);
      ZoneCases(s);
    }
  }

  /**
   * The malformed texts that are accepted, all of them: the parser's own tests hold, and byte 13 or 16 is not a
   * colon, or something follows the zone, or a field carries a sign, or a field is outside its range.
   */
  lemma MalformedAcceptedIff(s: string)
    ensures ParseRfc3339(s).Some? && !StrictShape(s) <==>
            LooseShape(s) && (s[13] != ':' || s[16] != ':' || !EndsWithZone(s) || !NoSigns(s) || !FieldsInRange(s))
  {
    hide ParseRfc3339, StrictShape, LooseShape, EndsWithZone, NoSigns, FieldsInRange;
    AcceptedIffLoose(s);
    StrictIsLooseAndSound(s);
  }

  /** Anything may follow the zone of a well-formed text: it is accepted and means the same. */
  lemma TailIsIgnored(t: DateTime, junk: string)
    requires ValidDateTime(t) && junk != ""
    ensures ParseRfc3339(PrintDateTime(t) + junk) == ParseRfc3339(PrintDateTime(t)) != None
    ensures !StrictShape(PrintDateTime(t) + junk)
  {
    hide PrintDateTime, Padded, ParseRfc3339, DaysFromCivil, ZoneSeconds, ClockSeconds, StrictShape, PrintZone;
    var s := PrintDateTime(t);
    SeparatorsOfPrint(t);
    ParseOfPrintClock(t);
    PrintedFields(t);
    ZoneStart(t.zone);
    assert s[19] == s[19..][0];
    TailKeepsParse(s, junk);
    TailBreaksShape(s, junk);
  }

  lemma TailKeepsParse(s: string, junk: string)
    requires |s| >= 20 && |s| == if s[19] == 'Z' then 20 else 25
    ensures ParseRfc3339(s + junk) == ParseRfc3339(s)
  {
    hide ParseI64, DaysFromCivil;
    var longer := s + junk;
    assert longer[0..4] == s[0..4] && longer[5..7] == s[5..7] && longer[8..10] == s[8..10];
    assert longer[11..13] == s[11..13] && longer[14..16] == s[14..16] && longer[17..19] == s[17..19];
    if |s| == 25 {
      assert longer[20..22] == s[20..22] && longer[23..25] == s[23..25];
    }
  }

  lemma TailBreaksShape(s: string, junk: string)
    requires junk != "" && |s| >= 20 && |s| == if s[19] == 'Z' then 20 else 25
    ensures !StrictShape(s + junk)
  {
    hide AllDigits, Value, Valid;
    var longer := s + junk;
    assert longer[19..][0] == s[19];
  }

  lemma ZoneStart(z: Zone)
    requires ValidZone(z)
    ensures PrintZone(z) != "" && (PrintZone(z)[0] == 'Z' <==> z.Utc?)
  {
  }
}
