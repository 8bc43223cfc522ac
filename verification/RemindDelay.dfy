/** Relative delays for `remind set --in`: bare seconds, or durations such as `1h30m`. */
module RemindDelay {
  import opened Results
  import opened Decimal

  datatype DelayError = Absolute | BadNumber | UnknownUnit | NoDelay

  function InSeconds(n: int, unit: char): Option<int> {
    if unit == 'd' then Some(n * 86_400)
    else if unit == 'h' then Some(n * 3_600)
    else if unit == 'm' then Some(n * 60)
    else if unit == 's' then Some(n)
    else None
  }

  /** The character loop, from a running total and the digits read so far. */
  function Scan(total: int, num: string, s: string): Result<int, DelayError>
    decreases |s|
  {
    if s == "" then (if num != "" || total == 0 then Err(NoDelay) else Ok(total))
    else if IsDigit(s[0]) then Scan(total, num + [s[0]], s[1..])
    else if ParseI64(num).None? then Err(BadNumber)
    else
      match InSeconds(ParseI64(num).value, s[0])
      case None => Err(UnknownUnit)
      case Some(n) => Scan(total + n, "", s[1..])
  }

  function Delay(s: string, now: int): Result<int, DelayError> {
    if 'T' in s then Err(Absolute)
    else if ParseI64(s).Some? then Ok(now + ParseI64(s).value)
    else
      match Scan(0, "", s)
      case Err(e) => Err(e)
      case Ok(total) => Ok(now + total)
  }

  /** `parse_remind_delay` */
  method ParseRemindDelay(s: string, now: int) returns (r: Result<int, DelayError>)
    ensures r == Delay(s, now)
  {
    if 'T' in s {
      return Err(Absolute);
    }
    var bare := ParseI64(s);
    if bare.Some? {
      return Ok(now + bare.value);
    }
    var total, num := 0, "";
    assert s[0..] == s;
    for i := 0 to |s|
      invariant Scan(0, "", s) == Scan(total, num, s[i..])
    {
      var ch := s[i];
      assert s[i..][1..] == s[i + 1..];
      if IsDigit(ch) {
        num := num + [ch];
      } else {
        var n := ParseI64(num);
        if n.None? {
          return Err(BadNumber);
        }
        num := "";
        var seconds := InSeconds(n.value, ch);
        if seconds.None? {
          return Err(UnknownUnit);
        }
        total := total + seconds.value;
      }
    }
    assert s[|s|..] == "";
    if num != "" || total == 0 {
      return Err(NoDelay);
    }
    return Ok(now + total);
  }

  // ----- the duration grammar -----

  /** A number with its unit; leading zeros are allowed. */
  datatype Part = Part(digits: string, unit: char)

  predicate ValidPart(p: Part) {
    p.digits != "" && AllDigits(p.digits) && Value(p.digits) <= 0x7FFF_FFFF_FFFF_FFFF && p.unit in {'d', 'h', 'm', 's'}
  }

  predicate ValidParts(parts: seq<Part>) { forall i :: 0 <= i < |parts| ==> ValidPart(parts[i]) }

  function Print(parts: seq<Part>): string {
    if parts == [] then "" else parts[0].digits + [parts[0].unit] + Print(parts[1..])
  }

  function PartSeconds(p: Part): int
    requires ValidPart(p)
  {
    var n := Value(p.digits);
    if p.unit == 'd' then n * (24 * 60 * 60) else if p.unit == 'h' then n * (60 * 60)
    else if p.unit == 'm' then n * 60 else n
  }

  lemma UnitIs(n: int, p: Part)
    ensures InSeconds(n, p.unit).Some? <==> p.unit in {'d', 'h', 'm', 's'}
    ensures ValidPart(p) && n == Value(p.digits) ==> InSeconds(n, p.unit) == Some(PartSeconds(p))
  {
    hide Value;
  }

  function Total(parts: seq<Part>): int
    requires ValidParts(parts)
  {
    if parts == [] then 0 else PartSeconds(parts[0]) + Total(parts[1..])
  }

  lemma {:induction false} ScanDigits(total: int, num: string, digits: string, rest: string)
    requires AllDigits(digits)
    ensures Scan(total, num, digits + rest) == Scan(total, num + digits, rest)
    decreases |digits|
  {
    if digits == "" {
      assert digits + rest == rest && num + digits == num;
    } else {
      var s := digits + rest;
      assert IsDigit(digits[0]) && s[0] == digits[0];
      assert s[1..] == digits[1..] + rest;
      assert AllDigits(digits[1..]);
      ScanDigits(total, num + [digits[0]], digits[1..], rest);
      assert num + [digits[0]] + digits[1..] == num + digits;
    }
  }

  lemma UnitIsNoDigit(unit: char)
    requires unit in {'d', 'h', 'm', 's'}
    ensures !IsDigit(unit)
  {
  }

  lemma ScanUnit(total: int, digits: string, unit: char, rest: string)
    requires ValidPart(Part(digits, unit))
    ensures Scan(total, digits, [unit] + rest) == Scan(total + PartSeconds(Part(digits, unit)), "", rest)
  {
    ParseOfDigits(digits);
    UnitIsNoDigit(unit);
    UnitIs(Value(digits), Part(digits, unit));
    hide Value, ParseI64, AllDigits, InSeconds, PartSeconds;
    assert ([unit] + rest)[1..] == rest;
  }

  lemma ScanPart(total: int, p: Part, rest: string)
    requires ValidPart(p)
    ensures Scan(total, "", p.digits + [p.unit] + rest) == Scan(total + PartSeconds(p), "", rest)
  {
    hide Scan, PartSeconds, Value, InSeconds;
    ScanDigits(total, "", p.digits, [p.unit] + rest);
    assert "" + p.digits == p.digits;
    assert p.digits + ([p.unit] + rest) == p.digits + [p.unit] + rest;
    ScanUnit(total, p.digits, p.unit, rest);
  }

  lemma ConsPart(p: Part, rest: seq<Part>)
    requires ValidPart(p) && ValidParts(rest)
    ensures ValidParts([p] + rest)
    ensures Print([p] + rest) == p.digits + [p.unit] + Print(rest)
    ensures Total([p] + rest) == PartSeconds(p) + Total(rest)
  {
    hide PartSeconds, ValidPart;
    assert ([p] + rest)[1..] == rest;
  }

  lemma ScanEnd(total: int)
    ensures Scan(total, "", "") == if total == 0 then Err(NoDelay) else Ok(total)
  {
  }

  lemma {:induction false} ScanOfPrint(total: int, parts: seq<Part>)
    requires ValidParts(parts)
    ensures Scan(total, "", Print(parts)) ==
            if total + Total(parts) == 0 then Err(NoDelay) else Ok(total + Total(parts))
    decreases |parts|
  {
    hide Scan, PartSeconds, ValidPart;
    if parts == [] {
      ScanEnd(total);
    } else {
      assert parts == [parts[0]] + parts[1..];
      ConsPart(parts[0], parts[1..]);
      ScanPart(total, parts[0], Print(parts[1..]));
      ScanOfPrint(total + PartSeconds(parts[0]), parts[1..]);
    }
  }

  /** A successful scan reads either one more digit or a whole part. */
  lemma ScanReads(total: int, num: string, s: string)
    requires s != "" && AllDigits(num) && Scan(total, num, s).Ok?
    ensures IsDigit(s[0]) ==> AllDigits(num + [s[0]]) && Scan(total, num, s) == Scan(total, num + [s[0]], s[1..])
    ensures !IsDigit(s[0]) ==>
              && ValidPart(Part(num, s[0]))
              && Scan(total, num, s) == Scan(total + PartSeconds(Part(num, s[0])), "", s[1..])
  {
    if !IsDigit(s[0]) {
      assert num != "";
      ParseOfDigits(num);
      UnitIs(Value(num), Part(num, s[0]));
      hide Value, ParseI64, InSeconds, PartSeconds;
    }
  }

  lemma ScanStops(total: int, num: string)
    requires Scan(total, num, "").Ok?
    ensures num == "" && Scan(total, num, "").value == total
    ensures ValidParts([]) && Print([]) == "" && Total([]) == 0
  {
  }

  /** What a successful scan read: the pending digits and the rest spell valid parts. */
  lemma {:induction false} PartsOfScan(total: int, num: string, s: string) returns (parts: seq<Part>)
    requires AllDigits(num) && Scan(total, num, s).Ok?
    ensures ValidParts(parts) && Print(parts) == num + s
    ensures Scan(total, num, s).value == total + Total(parts)
    decreases |s|
  {
    hide Scan, ValidPart, PartSeconds, AllDigits, IsDigit, Print, Total, ValidParts;
    if s == "" {
      ScanStops(total, num);
      parts := [];
    } else {
      ScanReads(total, num, s);
      if IsDigit(s[0]) {
        parts := PartsOfScan(total, num + [s[0]], s[1..]);
        assert num + [s[0]] + s[1..] == num + s;
      } else {
        var p := Part(num, s[0]);
        NoDigits();
        var rest := PartsOfScan(total + PartSeconds(p), "", s[1..]);
        ConsPart(p, rest);
        assert "" + s[1..] == s[1..];
        assert num + s == num + [s[0]] + s[1..];
        parts := [p] + rest;
      }
    }
  }

  lemma NoDigits()
    ensures AllDigits("")
  {
  }

  lemma DurationIff(s: string, total: int)
    ensures Scan(0, "", s) == Ok(total) <==>
            exists parts :: ValidParts(parts) && Print(parts) == s && Total(parts) != 0 && total == Total(parts)
  {
    hide Scan, Total, Print;
    if Scan(0, "", s).Ok? {
      var parts := PartsOfScan(0, "", s);
      assert "" + s == s;
      ScanOfPrint(0, parts);
    }
    forall parts | ValidParts(parts) && Print(parts) == s
      ensures Scan(0, "", s) == if Total(parts) == 0 then Err(NoDelay) else Ok(Total(parts))
    {
      ScanOfPrint(0, parts);
    }
  }

  lemma {:induction false} PrintEndsInUnit(parts: seq<Part>)
    requires ValidParts(parts) && parts != []
    ensures Print(parts) != "" && !IsDigit(Print(parts)[|Print(parts)| - 1])
  {
    if |parts| > 1 {
      PrintEndsInUnit(parts[1..]);
    } else {
      assert Print(parts[1..]) == "";
      assert ValidPart(parts[0]);
    }
  }

  /** No text is both a number and a list of number-unit pairs. */
  lemma NumeralIsNoDuration(s: string, sign: string, digits: string, n: int, parts: seq<Part>)
    requires IsNumeral(s, sign, digits, n) && ValidParts(parts)
    ensures Print(parts) != s
  {
    assert s[|s| - 1] == digits[|digits| - 1];
    if parts != [] {
      PrintEndsInUnit(parts);
    }
  }

  /**
   * The parser's grammar in both directions: a text without a T is accepted exactly when it is a number, which is
   * added to the current time as it is, or a list of number-unit pairs whose total is not zero, which is added. With
   * a T it is taken for a timestamp and refused.
   */
  lemma DelayIffDuration(s: string, now: int, due: int)
    ensures 'T' in s ==> Delay(s, now) == Err(Absolute)
    ensures 'T' !in s ==>
              var n := due - now;
              (Delay(s, now) == Ok(due)) ==
              ((exists sign, digits :: IsNumeral(s, sign, digits, n)) ||
               exists parts :: ValidParts(parts) && Print(parts) == s && Total(parts) != 0 && n == Total(parts))
  {
    hide Scan, Total, Print, ParseI64, IsNumeral, ValidParts;
    ParsesIffNumeral(s, due - now);
    DurationIff(s, due - now);
    if ParseI64(s).Some? {
      ParsesIffNumeral(s, ParseI64(s).value);
      var sign, digits :| IsNumeral(s, sign, digits, ParseI64(s).value);
      forall parts | ValidParts(parts) ensures Print(parts) != s {
        NumeralIsNoDuration(s, sign, digits, ParseI64(s).value, parts);
      }
    }
  }
}
