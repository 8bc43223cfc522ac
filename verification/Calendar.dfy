/**
 * The proleptic Gregorian calendar and the closed-form day number the reminder
 * parser uses. The reference is counting: a date's day number is how many single
 * calendar days lie between it and 1970-01-01.
 */
module Calendar {
  datatype Date = Date(year: int, month: int, day: int)

  const EPOCH := Date(1970, 1, 1)

  /** The leap rule of Appendix C of RFC 3339. */
  predicate IsLeap(year: int) {
    year % 4 == 0 && (year % 100 != 0 || year % 400 == 0)
  }

  /** Days in a month, section 5.7 of RFC 3339. */
  function MonthLength(year: int, month: int): int {
    if month == 2 then (if IsLeap(year) then 29 else 28)
    else if month == 4 || month == 6 || month == 9 || month == 11 then 30
    else 31
  }

  predicate Valid(d: Date) {
    1 <= d.month <= 12 && 1 <= d.day <= MonthLength(d.year, d.month)
  }

  /** Which dates there are, in every year. */
  lemma ValidIff(year: int, month: int, day: int)
    ensures Valid(Date(year, month, day)) <==>
            && 1 <= month <= 12 && 1 <= day <= 31
            && (month in {4, 6, 9, 11} ==> day <= 30)
            && (month == 2 ==> day <= 29 && (day == 29 ==> year % 4 == 0 && (year % 100 == 0 ==> year % 400 == 0)))
  {
  }

  function NextDay(d: Date): (next: Date)
    requires Valid(d)
    ensures Valid(next)
  {
    if d.day < MonthLength(d.year, d.month) then Date(d.year, d.month, d.day + 1)
    else if d.month < 12 then Date(d.year, d.month + 1, 1)
    else Date(d.year + 1, 1, 1)
  }

  /** The date reached by stepping `n` single days forward. */
  function Walk(d: Date, n: nat): (end: Date)
    requires Valid(d)
    ensures Valid(end)
  {
    if n == 0 then d else NextDay(Walk(d, n - 1))
  }

  predicate Before(a: Date, b: Date) {
    a.year < b.year
    || (a.year == b.year && a.month < b.month)
    || (a.year == b.year && a.month == b.month && a.day < b.day)
  }

  /** Rust's `/` on signed integers: truncation toward zero. */
  function TruncDiv(a: int, b: int): int
    requires b > 0
  {
    if a >= 0 then a / b else -((-a) / b)
  }

  /** The closed form in the source, operator by operator. */
  function DaysFromCivil(year: int, month: int, day: int): int {
    var y := if month <= 2 then year - 1 else year;
    var era := TruncDiv(if y >= 0 then y else y - 399, 400);
    var yoe := y - era * 400;
    var m := if month > 2 then month - 3 else month + 9;
    var doy := TruncDiv(153 * m + 2, 5) + day - 1;
    var doe := yoe * 365 + TruncDiv(yoe, 4) - TruncDiv(yoe, 100) + doy;
    era * 146_097 + doe - 719_468
  }

  function DayNumber(d: Date): int { DaysFromCivil(d.year, d.month, d.day) }

  // ----- a year that starts in March -----

  function MarchYear(d: Date): int { if d.month <= 2 then d.year - 1 else d.year }

  function MarchMonth(d: Date): int { if d.month > 2 then d.month - 3 else d.month + 9 }

  /** Days from the epoch to the first of March of year `y`. */
  function MarchStart(y: int): int { 365 * y + y / 4 - y / 100 + y / 400 - 719_468 }

  function DayOfMarchYear(d: Date): int { (153 * MarchMonth(d) + 2) / 5 + d.day - 1 }

  lemma EraIsFloor(y: int)
    ensures TruncDiv(if y >= 0 then y else y - 399, 400) == y / 400
  {
  }

  /** Inside an era every division is of a non-negative number. */
  lemma EraSplits(y: int)
    ensures var yoe := y - y / 400 * 400;
            && 0 <= yoe < 400
            && MarchStart(y) == y / 400 * 146_097 + (yoe * 365 + TruncDiv(yoe, 4) - TruncDiv(yoe, 100)) - 719_468
  {
    var era := y / 400;
    var yoe := y - era * 400;
    assert y / 4 == era * 100 + yoe / 4;
    assert y / 100 == era * 4 + yoe / 100;
  }

  lemma DayNumberSplits(d: Date)
    requires Valid(d)
    ensures DayNumber(d) == MarchStart(MarchYear(d)) + DayOfMarchYear(d)
  {
    hide MarchStart, IsLeap, MonthLength;
    EraIsFloor(MarchYear(d));
    EraSplits(MarchYear(d));
  }

  lemma QuotientStep(y: int, k: int)
    requires k == 4 || k == 100 || k == 400
    ensures (y + 1) / k - y / k == if (y + 1) % k == 0 then 1 else 0
  {
  }

  lemma MultipleOfHundred(n: int)
    requires n % 100 == 0
    ensures n % 4 == 0
  {
    var k := n / 100;
    assert n == 100 * k;
    assert n - 4 * (25 * k) == 0;
  }

  lemma MultipleOfFourHundred(n: int)
    requires n % 400 == 0
    ensures n % 100 == 0
  {
    var k := n / 400;
    assert n == 400 * k;
    assert n - 100 * (4 * k) == 0;
  }

  lemma MarchYearLength(y: int)
    ensures MarchStart(y + 1) - MarchStart(y) == if IsLeap(y + 1) then 366 else 365
  {
    if (y + 1) % 400 == 0 {
      MultipleOfFourHundred(y + 1);
    }
    if (y + 1) % 100 == 0 {
      MultipleOfHundred(y + 1);
    }
    QuotientStep(y, 4);
    QuotientStep(y, 100);
    QuotientStep(y, 400);
  }

  /** Within a March year the day index advances by one; at its end it wraps. */
  lemma NextDayInMarchYear(d: Date)
    requires Valid(d)
    ensures MarchYear(NextDay(d)) == MarchYear(d) ==> DayOfMarchYear(NextDay(d)) == DayOfMarchYear(d) + 1
    ensures MarchYear(NextDay(d)) != MarchYear(d) ==>
              && MarchYear(NextDay(d)) == MarchYear(d) + 1
              && DayOfMarchYear(NextDay(d)) == 0
              && DayOfMarchYear(d) == if IsLeap(MarchYear(d) + 1) then 365 else 364
  {
    hide IsLeap;
  }

  /** One calendar step is one unit of the closed form. */
  lemma NextDayAddsOne(d: Date)
    requires Valid(d)
    ensures DayNumber(NextDay(d)) == DayNumber(d) + 1
  {
    hide DaysFromCivil, MarchStart, IsLeap, DayOfMarchYear, MarchYear, NextDay;
    DayNumberSplits(d);
    DayNumberSplits(NextDay(d));
    MarchYearLength(MarchYear(d));
    NextDayInMarchYear(d);
  }

  lemma {:induction false} WalkAddsDays(d: Date, n: nat)
    requires Valid(d)
    ensures DayNumber(Walk(d, n)) == DayNumber(d) + n
  {
    hide DayNumber, NextDay, Valid;
    if n > 0 {
      WalkAddsDays(d, n - 1);
      NextDayAddsOne(Walk(d, n - 1));
    }
  }

  lemma {:induction false} MarchStartIncreases(a: int, b: int)
    requires a < b
    ensures MarchStart(a + 1) <= MarchStart(b)
  {
  }

  lemma StaysInMarchYear(d: Date)
    requires Valid(d)
    ensures 0 <= DayOfMarchYear(d) < MarchStart(MarchYear(d) + 1) - MarchStart(MarchYear(d))
  {
    MarchYearLength(MarchYear(d));
  }

  /** The closed form is strictly increasing in calendar order. */
  lemma DayNumberIncreases(a: Date, b: Date)
    requires Valid(a) && Valid(b) && Before(a, b)
    ensures DayNumber(a) < DayNumber(b)
  {
    hide DaysFromCivil, MarchStart;
    DayNumberSplits(a);
    DayNumberSplits(b);
    if MarchYear(a) < MarchYear(b) {
      StaysInMarchYear(a);
      StaysInMarchYear(b);
      MarchStartIncreases(MarchYear(a), MarchYear(b));
    }
  }

  lemma MarchStartPeriod(y: int)
    ensures MarchStart(y + 400) == MarchStart(y) + 146_097
  {
    assert (y + 400) / 4 == y / 4 + 100;
    assert (y + 400) / 100 == y / 100 + 4;
    assert (y + 400) / 400 == y / 400 + 1;
  }

  lemma SameRemainder4(y: int)
    ensures (y + 400) % 4 == y % 4
  {
    assert (y + 400) / 4 == y / 4 + 100;
  }

  lemma SameRemainder100(y: int)
    ensures (y + 400) % 100 == y % 100
  {
    assert (y + 400) / 100 == y / 100 + 4;
  }

  lemma SameRemainder400(y: int)
    ensures (y + 400) % 400 == y % 400
  {
    assert (y + 400) / 400 == y / 400 + 1;
  }

  lemma LeapPeriod(y: int)
    ensures IsLeap(y + 400) == IsLeap(y)
  {
    SameRemainder4(y);
    SameRemainder100(y);
    SameRemainder400(y);
  }

  /** Four hundred years are always 146097 days. */
  lemma DayNumberPeriod(d: Date)
    requires Valid(d)
    ensures Valid(Date(d.year + 400, d.month, d.day))
    ensures DayNumber(Date(d.year + 400, d.month, d.day)) == DayNumber(d) + 146_097
  {
    hide DaysFromCivil, IsLeap, MarchStart;
    var e := Date(d.year + 400, d.month, d.day);
    LeapPeriod(d.year);
    DayNumberSplits(d);
    DayNumberSplits(e);
    MarchStartPeriod(MarchYear(d));
  }

  lemma EpochIsZero()
    ensures DayNumber(EPOCH) == 0
  {
  }

  /**
   * The closed form counts calendar days: stepping that many days from 1970-01-01
   * reaches the date, or, for an earlier date, stepping from it reaches 1970-01-01.
   */
  lemma DayNumberCountsDays(d: Date)
    requires Valid(d)
    ensures DayNumber(d) >= 0 ==> Walk(EPOCH, DayNumber(d)) == d
    ensures DayNumber(d) < 0 ==> Walk(d, -DayNumber(d)) == EPOCH
  {
    hide DaysFromCivil;
    EpochIsZero();
    var n := DayNumber(d);
    if n >= 0 {
      var e := Walk(EPOCH, n);
      WalkAddsDays(EPOCH, n);
      SameDayNumberSameDate(e, d);
    } else {
      var e := Walk(d, -n);
      WalkAddsDays(d, -n);
      SameDayNumberSameDate(e, EPOCH);
    }
  }

  lemma SameDayNumberSameDate(a: Date, b: Date)
    requires Valid(a) && Valid(b) && DayNumber(a) == DayNumber(b)
    ensures a == b
  {
    if Before(a, b) {
      DayNumberIncreases(a, b);
    } else if Before(b, a) {
      DayNumberIncreases(b, a);
    }
  }
}
