/**
 * Calendar dates (chrono's `NaiveDate`), their chronological order, and the
 * `%d-%m-%Y` rendering used to name destination folders.
 */
module Dates {
  import opened Wrappers

  datatype Date = Date(year: int, month: nat, day: nat)

  function DaysInMonth(year: int, month: nat): nat
  {
    if month == 2 then (if (year % 4 == 0 && year % 100 != 0) || year % 400 == 0 then 29 else 28)
    else if month == 4 || month == 6 || month == 9 || month == 11 then 30
    else 31
  }

  /** Every `NaiveDate` is a real day of the proleptic Gregorian calendar. */
  predicate IsCalendarDate(d: Date)
  {
    1 <= d.month <= 12 && 1 <= d.day <= DaysInMonth(d.year, d.month)
  }

  /** `NaiveDate`'s `Ord`: year, then month, then day. */
  predicate Before(a: Date, b: Date)
  {
    a.year < b.year
    || (a.year == b.year && a.month < b.month)
    || (a.year == b.year && a.month == b.month && a.day < b.day)
  }

  lemma BeforeIsStrictTotalOrder(a: Date, b: Date, c: Date)
    ensures !Before(a, a)
    ensures Before(a, b) && Before(b, c) ==> Before(a, c)
    ensures a == b || Before(a, b) || Before(b, a)
    ensures !(Before(a, b) && Before(b, a))
  {
  }

  function Digit(k: nat): (c: char)
    requires k < 10
  {
    "0123456789"[k]
  }

  predicate IsDigit(c: char)
  {
    '0' <= c <= '9'
  }

  function DigitValue(c: char): nat
    requires IsDigit(c)
  {
    c as int - '0' as int
  }

  /** The decimal digits of `n`, without leading zeros ("0" for zero). */
  function Decimal(n: nat): (r: string)
    ensures |r| >= 1
  {
    if n < 10 then [Digit(n)] else Decimal(n / 10) + [Digit(n % 10)]
  }

  function Zeros(k: nat): (r: string)
    ensures |r| == k
  {
    if k == 0 then [] else Zeros(k - 1) + ['0']
  }

  lemma {:induction false} ZerosAreZeros(k: nat)
    ensures forall i :: 0 <= i < k ==> Zeros(k)[i] == '0'
  {
    if k > 0 {
      ZerosAreZeros(k - 1);
    }
  }

  /** `n` in decimal, left-padded with zeros to at least `width` digits. */
  function ZeroPad(n: nat, width: nat): string
  {
    var digits := Decimal(n);
    (if |digits| < width then Zeros(width - |digits|) else []) + digits
  }

  /**
   * chrono's `%Y`: four zero-padded digits for years 0 to 9999; any other
   * year carries an explicit sign, as ISO 8601 asks for such years.
   */
  function FormatYear(y: int): string
  {
    if 0 <= y <= 9999 then ZeroPad(y, 4)
    else (if y < 0 then "-" else "+") + ZeroPad(if y < 0 then -y else y, 4)
  }

  /** `NaiveDate::format("%d-%m-%Y")`. */
  function FormatDate(d: Date): string
  {
    ZeroPad(d.day, 2) + "-" + ZeroPad(d.month, 2) + "-" + FormatYear(d.year)
  }

  /** The value of a string of decimal digits. */
  function DecimalValue(s: string): nat
    requires forall i :: 0 <= i < |s| ==> IsDigit(s[i])
  {
    if s == [] then 0 else DecimalValue(s[..|s| - 1]) * 10 + DigitValue(s[|s| - 1])
  }

  /** Reads a `DD-MM-YYYY` text back into a date. */
  function ParseDate(s: string): (r: Option<Date>)
  {
    if |s| == 10 && s[2] == '-' && s[5] == '-'
      && (forall i :: 0 <= i < 2 ==> IsDigit(s[i]))
      && (forall i :: 3 <= i < 5 ==> IsDigit(s[i]))
      && (forall i :: 6 <= i < 10 ==> IsDigit(s[i]))
    then Some(Date(DecimalValue(s[6..10]), DecimalValue(s[3..5]), DecimalValue(s[0..2])))
    else None
  }

  function Pow10(w: nat): nat
  {
    if w == 0 then 1 else 10 * Pow10(w - 1)
  }

  lemma {:induction false} DecimalRoundTrip(n: nat)
    ensures forall i :: 0 <= i < |Decimal(n)| ==> IsDigit(Decimal(n)[i])
    ensures DecimalValue(Decimal(n)) == n
  {
    if n >= 10 {
      var s := Decimal(n / 10) + [Digit(n % 10)];
      assert s[..|s| - 1] == Decimal(n / 10);
      DecimalRoundTrip(n / 10);
    }
  }

  lemma {:induction false} DecimalLength(n: nat, w: nat)
    requires 1 <= w && n < Pow10(w)
    ensures |Decimal(n)| <= w
  {
    if n >= 10 {
      DecimalLength(n / 10, w - 1);
    }
  }

  lemma {:induction false} LeadingZerosAddNothing(z: nat, s: string)
    requires forall i :: 0 <= i < |s| ==> IsDigit(s[i])
    ensures forall i :: 0 <= i < z ==> Zeros(z)[i] == '0'
    ensures DecimalValue(Zeros(z) + s) == DecimalValue(s)
    decreases z + |s|
  {
    ZerosAreZeros(z);
    var t := Zeros(z) + s;
    if s == [] {
      assert t == Zeros(z);
      if z > 0 {
        assert t[..|t| - 1] == Zeros(z - 1) + [];
        LeadingZerosAddNothing(z - 1, []);
      }
    } else {
      assert t[..|t| - 1] == Zeros(z) + s[..|s| - 1];
      LeadingZerosAddNothing(z, s[..|s| - 1]);
    }
  }

  lemma DigitsConcat(a: string, b: string)
    requires forall i :: 0 <= i < |a| ==> IsDigit(a[i])
    requires forall i :: 0 <= i < |b| ==> IsDigit(b[i])
    ensures forall i :: 0 <= i < |a + b| ==> IsDigit((a + b)[i])
  {
    forall i | |a| <= i < |a + b| ensures IsDigit((a + b)[i]) {
      assert (a + b)[i] == b[i - |a|];
    }
  }

  /** A zero-padded number of any width is all digits and reads back as itself. */
  lemma ZeroPadReadsBack(n: nat, width: nat)
    ensures |ZeroPad(n, width)| >= 1
    ensures forall i :: 0 <= i < |ZeroPad(n, width)| ==> IsDigit(ZeroPad(n, width)[i])
    ensures DecimalValue(ZeroPad(n, width)) == n
  {
    var digits := Decimal(n);
    var z := if |digits| < width then width - |digits| else 0;
    DecimalRoundTrip(n);
    LeadingZerosAddNothing(z, digits);
    DigitsConcat(Zeros(z), digits);
    assert Zeros(0) == [];
    assert ZeroPad(n, width) == Zeros(z) + digits;
  }

  /** A zero-padded number of at most `width` digits is exactly `width` long and reads back as itself. */
  lemma ZeroPadRoundTrip(n: nat, width: nat)
    requires 1 <= width && n < Pow10(width)
    ensures |ZeroPad(n, width)| == width
    ensures forall i :: 0 <= i < width ==> IsDigit(ZeroPad(n, width)[i])
    ensures DecimalValue(ZeroPad(n, width)) == n
  {
    DecimalLength(n, width);
    ZeroPadReadsBack(n, width);
  }

  /** The dates whose `%d-%m-%Y` text is exactly ten characters: two-digit day and month, four-digit year. */
  predicate FitsTenCharacters(d: Date)
  {
    d.day < 100 && d.month < 100 && 0 <= d.year <= 9999
  }

  lemma CalendarDateFits(d: Date)
    requires IsCalendarDate(d) && 0 <= d.year <= 9999
    ensures FitsTenCharacters(d)
  {
  }

  /** Where the day, the month and the year sit in the ten characters of a folder date. */
  lemma FormatDateLayout(d: Date)
    requires FitsTenCharacters(d)
    ensures var s := FormatDate(d);
      && |s| == 10 && s[2] == '-' && s[5] == '-'
      && s[0..2] == ZeroPad(d.day, 2) && s[3..5] == ZeroPad(d.month, 2) && s[6..10] == ZeroPad(d.year, 4)
  {
    assert Pow10(4) == 10000;
    FormatDateFields(d);
    ZeroPadRoundTrip(d.year, 4);
    assert FormatYear(d.year) == ZeroPad(d.year, 4);
  }

  /** The eight digit positions of a ten-character folder date hold digits. */
  lemma FormatDateDigits(d: Date)
    requires FitsTenCharacters(d)
    ensures var s := FormatDate(d);
      && |s| == 10
      && (forall i :: 0 <= i < 2 ==> IsDigit(s[i]))
      && (forall i :: 3 <= i < 5 ==> IsDigit(s[i]))
      && (forall i :: 6 <= i < 10 ==> IsDigit(s[i]))
  {
    assert Pow10(2) == 100 && Pow10(4) == 10000;
    var dd, mm, yyyy := ZeroPad(d.day, 2), ZeroPad(d.month, 2), ZeroPad(d.year, 4);
    FormatDateLayout(d);
    var s := FormatDate(d);
    assert forall i :: 0 <= i < 2 ==> IsDigit(s[i]) by {
      ZeroPadRoundTrip(d.day, 2);
      forall i | 0 <= i < 2 ensures IsDigit(s[i]) { assert s[i] == s[0..2][i] == dd[i]; }
    }
    assert forall i :: 3 <= i < 5 ==> IsDigit(s[i]) by {
      ZeroPadRoundTrip(d.month, 2);
      forall i | 3 <= i < 5 ensures IsDigit(s[i]) { assert s[i] == s[3..5][i - 3] == mm[i - 3]; }
    }
    assert forall i :: 6 <= i < 10 ==> IsDigit(s[i]) by {
      ZeroPadRoundTrip(d.year, 4);
      forall i | 6 <= i < 10 ensures IsDigit(s[i]) { assert s[i] == s[6..10][i - 6] == yyyy[i - 6]; }
    }
  }

  /**
   * For every date of a four-digit year, the folder date text is ten
   * characters long and determines the date: parsing it gives the date back.
   */
  lemma {:induction false} FormatDateRoundTrip(d: Date)
    requires FitsTenCharacters(d)
    ensures |FormatDate(d)| == 10
    ensures ParseDate(FormatDate(d)) == Some(d)
  {
    assert Pow10(2) == 100 && Pow10(4) == 10000;
    FormatDateDigits(d);
    FormatDateLayout(d);
    ZeroPadRoundTrip(d.day, 2);
    ZeroPadRoundTrip(d.month, 2);
    ZeroPadRoundTrip(d.year, 4);
  }

  /** The characters a date text is made of. */
  predicate IsDateChar(c: char)
  {
    IsDigit(c) || c == '-' || c == '+'
  }

  /**
   * `%Y` opens with a digit exactly for years 0 to 9999, and otherwise with
   * the year's sign followed by its zero-padded magnitude.
   */
  lemma FormatYearShape(y: int)
    ensures var s := FormatYear(y);
      && |s| >= 1
      && (IsDigit(s[0]) <==> 0 <= y <= 9999)
      && (y < 0 ==> s[0] == '-' && s[1..] == ZeroPad(-y, 4))
      && (y > 9999 ==> s[0] == '+' && s[1..] == ZeroPad(y, 4))
      && (forall i :: 0 <= i < |s| ==> IsDateChar(s[i]))
  {
    var m := if y < 0 then -y else y;
    ZeroPadReadsBack(m, 4);
    var s := FormatYear(y);
    if !(0 <= y <= 9999) {
      var sign := if y < 0 then "-" else "+";
      assert s == sign + ZeroPad(m, 4);
      assert s[1..] == ZeroPad(m, 4);
      forall i | 1 <= i < |s| ensures IsDateChar(s[i]) {
        assert s[i] == ZeroPad(m, 4)[i - 1];
      }
    }
  }

  /** Different years never render to the same `%Y` text. */
  lemma FormatYearInjective(x: int, y: int)
    requires FormatYear(x) == FormatYear(y)
    ensures x == y
  {
    FormatYearShape(x);
    FormatYearShape(y);
    ZeroPadReadsBack(if x < 0 then -x else x, 4);
    ZeroPadReadsBack(if y < 0 then -y else y, 4);
  }

  /** Where the day, the month and the year sit in a folder date, whatever the year. */
  lemma FormatDateFields(d: Date)
    requires d.day < 100 && d.month < 100
    ensures var s := FormatDate(d);
      && |s| == 6 + |FormatYear(d.year)| && s[2] == '-' && s[5] == '-'
      && s[0..2] == ZeroPad(d.day, 2) && s[3..5] == ZeroPad(d.month, 2) && s[6..] == FormatYear(d.year)
      && (forall i :: 0 <= i < |s| ==> IsDateChar(s[i]))
  {
    assert Pow10(2) == 100;
    ZeroPadRoundTrip(d.day, 2);
    ZeroPadRoundTrip(d.month, 2);
    FormatYearShape(d.year);
    var dd, mm, yy := ZeroPad(d.day, 2), ZeroPad(d.month, 2), FormatYear(d.year);
    var s := FormatDate(d);
    var head := dd + "-" + mm + "-";
    assert s == head + yy;
    assert s[6..] == yy;
    assert s[..6] == head;
    assert head[0..2] == dd && head[3..5] == mm;
    forall i | 0 <= i < |s| ensures IsDateChar(s[i]) {
      if i < 6 {
        assert s[i] == head[i];
        if i < 2 {
          assert head[i] == dd[i];
        } else if 3 <= i < 5 {
          assert head[i] == mm[i - 3];
        }
      } else {
        assert s[i] == yy[i - 6];
      }
    }
  }

  /** Two different calendar dates never render to the same text, whatever their years. */
  lemma {:induction false} FormatDateInjective(a: Date, b: Date)
    requires IsCalendarDate(a) && IsCalendarDate(b)
    requires FormatDate(a) == FormatDate(b)
    ensures a == b
  {
    FormatDateFields(a);
    FormatDateFields(b);
    ZeroPadReadsBack(a.day, 2);
    ZeroPadReadsBack(b.day, 2);
    ZeroPadReadsBack(a.month, 2);
    ZeroPadReadsBack(b.month, 2);
    FormatYearInjective(a.year, b.year);
  }
}
