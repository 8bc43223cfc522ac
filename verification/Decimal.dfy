/** Decimal text: how Rust prints an unsigned integer and how `str::parse::<i64>` reads one. */
module Decimal {
  import opened Results

  const I64_MIN: int := -0x8000_0000_0000_0000
  const I64_MAX: int := 0x7FFF_FFFF_FFFF_FFFF

  predicate IsDigit(c: char) { '0' <= c <= '9' }

  lemma TenDigits(c: char)
    ensures IsDigit(c) <==> c in "0123456789"
  {
  }

  predicate AllDigits(s: string) { forall i :: 0 <= i < |s| ==> IsDigit(s[i]) }

  function DigitChar(d: nat): (c: char)
    requires d < 10
    ensures IsDigit(c) && c as int - '0' as int == d
  {
    (d + '0' as int) as char
  }

  function Value(s: string): nat
    requires AllDigits(s)
  {
    if s == [] then 0 else Value(s[..|s| - 1]) * 10 + (s[|s| - 1] as int - '0' as int)
  }

  /** `format!("{n}")` for an unsigned integer. */
  function Show(n: nat): (s: string)
    ensures |s| >= 1 && AllDigits(s)
  {
    if n < 10 then [DigitChar(n)] else Show(n / 10) + [DigitChar(n % 10)]
  }

  /** `format!("{n:0width$}")` for a number that fits the width. */
  function Padded(n: nat, width: nat): (s: string)
    ensures |s| == width && AllDigits(s)
  {
    if width == 0 then "" else Padded(n / 10, width - 1) + [DigitChar(n % 10)]
  }

  function Power10(k: nat): nat { if k == 0 then 1 else 10 * Power10(k - 1) }

  lemma {:induction false} ValueOfShow(n: nat)
    ensures Value(Show(n)) == n
  {
    if n >= 10 {
      ValueOfShow(n / 10);
      assert Show(n)[..|Show(n)| - 1] == Show(n / 10);
    }
  }

  lemma {:induction false} ValueOfPadded(n: nat, width: nat)
    requires n < Power10(width)
    ensures Value(Padded(n, width)) == n
  {
    if width > 0 {
      ValueOfPadded(n / 10, width - 1);
      assert Padded(n, width)[..width - 1] == Padded(n / 10, width - 1);
    }
  }

  /** `str::parse::<i64>`: an optional sign, then one or more digits, within 64 bits. */
  function ParseI64(s: string): Option<int> {
    var digits := if |s| > 0 && (s[0] == '+' || s[0] == '-') then s[1..] else s;
    if |digits| == 0 || !AllDigits(digits) then None
    else
      var n: int := if s[0] == '-' then 0 - Value(digits) else Value(digits);
      if I64_MIN <= n <= I64_MAX then Some(n) else None
  }

  /** A sign or none, and digits; together they mean `n`, which fits 64 bits. */
  predicate IsNumeral(s: string, sign: string, digits: string, n: int) {
    && s == sign + digits && sign in {"", "+", "-"} && digits != "" && AllDigits(digits)
    && n == (if sign == "-" then 0 - Value(digits) else Value(digits))
    && -0x8000_0000_0000_0000 <= n <= 0x7FFF_FFFF_FFFF_FFFF
  }

  lemma ParseOfNumeral(s: string, sign: string, digits: string, n: int)
    requires IsNumeral(s, sign, digits, n)
    ensures ParseI64(s) == Some(n)
  {
    hide Value;
    assert IsDigit(digits[0]);
    assert s[|sign|..] == digits;
    if sign == "" {
      assert s == digits;
    } else {
      assert s[0] == sign[0];
    }
  }

  /** What parses is exactly the numerals. */
  lemma ParsesIffNumeral(s: string, n: int)
    ensures ParseI64(s) == Some(n) <==> exists sign, digits :: IsNumeral(s, sign, digits, n)
  {
    if ParseI64(s) == Some(n) {
      hide Value;
      if s[0] == '+' || s[0] == '-' {
        assert s == [s[0]] + s[1..];
        assert IsNumeral(s, [s[0]], s[1..], n);
      } else {
        assert s == "" + s;
        assert IsNumeral(s, "", s, n);
      }
    }
    forall sign, digits | IsNumeral(s, sign, digits, n) ensures ParseI64(s) == Some(n) {
      ParseOfNumeral(s, sign, digits, n);
    }
  }

  lemma ParseOfPadded(n: nat, width: nat)
    requires width >= 1 && n < Power10(width) && n <= I64_MAX
    ensures ParseI64(Padded(n, width)) == Some(n)
  {
    hide Padded, Power10, Value;
    ValueOfPadded(n, width);
    assert IsDigit(Padded(n, width)[0]);
  }

  /** Fixed-width digits are the padded form of their value. */
  lemma {:induction false} PaddedOfValue(s: string)
    requires AllDigits(s)
    ensures Padded(Value(s), |s|) == s
    ensures Value(s) < Power10(|s|)
  {
    if s != "" {
      var front, last := s[..|s| - 1], s[|s| - 1];
      PaddedOfValue(front);
      assert IsDigit(last);
      assert Value(s) / 10 == Value(front) && Value(s) % 10 == last as int - '0' as int;
      assert DigitChar(Value(s) % 10) == last;
      assert s == front + [last];
    }
  }

  lemma ParseOfDigits(s: string)
    requires s != "" && AllDigits(s)
    ensures ParseI64(s) == if Value(s) <= I64_MAX then Some(Value(s)) else None
  {
    assert IsDigit(s[0]);
  }
}
