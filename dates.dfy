/**
  Calendar dates as Python's `datetime.date` holds them (proleptic
  Gregorian calendar, years 1 to 9999): validity, the day ordinal that
  date subtraction works on, and the ISO text form `YYYY-MM-DD` in which
  the product table stores expiry dates.
 */
module Dates {
  import opened Wrappers
  import opened Collation

  datatype Date = Date(year: int, month: int, day: int)

  const MIN_YEAR: int := 1
  const MAX_YEAR: int := 9999

  predicate IsLeap(year: int)
  {
    year % 4 == 0 && (year % 100 != 0 || year % 400 == 0)
  }

  function DaysInMonth(year: int, month: int): int
    requires 1 <= month <= 12
  {
    if month == 2 then (if IsLeap(year) then 29 else 28)
    else if month == 4 || month == 6 || month == 9 || month == 11 then 30
    else 31
  }

  function DaysInYear(year: int): int
  {
    if IsLeap(year) then 366 else 365
  }

  /** The dates `datetime.date` accepts. */
  predicate ValidDate(d: Date)
  {
    MIN_YEAR <= d.year <= MAX_YEAR && 1 <= d.month <= 12 && 1 <= d.day <= DaysInMonth(d.year, d.month)
  }

  /** Chronological order: by year, then month, then day. */
  predicate DateLe(a: Date, b: Date)
  {
    a.year < b.year || (a.year == b.year && (a.month < b.month || (a.month == b.month && a.day <= b.day)))
  }

  /** Days in the years before `year`. */
  function DaysBeforeYear(year: int): int
    requires year >= 1
  {
    var n := year - 1;
    n * 365 + n / 4 - n / 100 + n / 400
  }

  /** Days in the months of `year` before `month`. */
  function DaysBeforeMonth(year: int, month: int): int
    requires 1 <= month <= 12
  {
    [0, 31, 59, 90, 120, 151, 181, 212, 243, 273, 304, 334][month - 1]
      + (if month > 2 && IsLeap(year) then 1 else 0)
  }

  /** `date.toordinal()`: 0001-01-01 is day 1. */
  function Ordinal(d: Date): int
    requires ValidDate(d)
  {
    DaysBeforeYear(d.year) + DaysBeforeMonth(d.year, d.month) + d.day
  }

  /** `(b - a).days` for two dates. */
  function DaysBetween(a: Date, b: Date): int
    requires ValidDate(a) && ValidDate(b)
  {
    Ordinal(b) - Ordinal(a)
  }

  /** How many multiples of 4, 100 and 400 there are up to `year`, one year on. */
  lemma MultiplesStep(year: int)
    requires year >= 1
    ensures year / 4 == (year - 1) / 4 + (if year % 4 == 0 then 1 else 0)
    ensures year / 100 == (year - 1) / 100 + (if year % 100 == 0 then 1 else 0)
    ensures year / 400 == (year - 1) / 400 + (if year % 400 == 0 then 1 else 0)
  {
  }

  /** A year has one extra day per rule of the leap-year test that applies to it. */
  lemma LeapDays(year: int)
    ensures DaysInYear(year) == 365 + (if year % 4 == 0 then 1 else 0) - (if year % 100 == 0 then 1 else 0)
      + (if year % 400 == 0 then 1 else 0)
  {
    if year % 400 == 0 {
      var k := year / 400;
      assert year == 100 * (4 * k) + 0;
      assert year == 4 * (100 * k) + 0;
    } else if year % 100 == 0 {
      var k := year / 100;
      assert year == 4 * (25 * k) + 0;
    }
  }

  lemma DaysBeforeYearStep(year: int)
    requires year >= 1
    ensures DaysBeforeYear(year + 1) == DaysBeforeYear(year) + DaysInYear(year)
  {
    MultiplesStep(year);
    var n := year - 1;
    assert DaysBeforeYear(year + 1) == year * 365 + year / 4 - year / 100 + year / 400;
    assert DaysBeforeYear(year) == n * 365 + n / 4 - n / 100 + n / 400;
    LeapDays(year);
  }

  lemma {:induction false} DaysBeforeYearGrows(year: int, later: int)
    requires 1 <= year < later
    ensures DaysBeforeYear(year) + DaysInYear(year) <= DaysBeforeYear(later)
    decreases later - year
  {
    DaysBeforeYearStep(year);
    if year + 1 < later {
      DaysBeforeYearGrows(year + 1, later);
    }
  }

  lemma MonthEndsWithinYear(year: int, month: int, later: int)
    requires 1 <= month <= 12
    ensures DaysBeforeMonth(year, month) + DaysInMonth(year, month) <= DaysInYear(year)
    ensures month < later <= 12 ==> DaysBeforeMonth(year, month) + DaysInMonth(year, month) <= DaysBeforeMonth(year, later)
  {
  }

  lemma OrdinalStrictlyIncreasing(a: Date, b: Date)
    requires ValidDate(a) && ValidDate(b)
    requires DateLe(a, b) && a != b
    ensures Ordinal(a) < Ordinal(b)
  {
    MonthEndsWithinYear(a.year, a.month, b.month);
    if a.year < b.year {
      DaysBeforeYearGrows(a.year, b.year);
    }
  }

  /** Chronological order is exactly the order of day ordinals. */
  lemma OrdinalOrder(a: Date, b: Date)
    requires ValidDate(a) && ValidDate(b)
    ensures DateLe(a, b) <==> Ordinal(a) <= Ordinal(b)
  {
    if a != b {
      if DateLe(a, b) {
        OrdinalStrictlyIncreasing(a, b);
      } else {
        OrdinalStrictlyIncreasing(b, a);
      }
    }
  }

  // ---- decimal digits ----

  predicate IsDigit(c: char)
  {
    '0' <= c <= '9'
  }

  predicate AllDigits(s: string)
  {
    forall i :: 0 <= i < |s| ==> IsDigit(s[i])
  }

  function DigitChar(n: nat): (c: char)
    requires n < 10
  {
    ('0' as int + n) as char
  }

  function Pow10(k: nat): (p: nat)
    ensures p >= 1
  {
    if k == 0 then 1 else 10 * Pow10(k - 1)
  }

  /** `n` written with exactly `k` decimal digits, zero-padded (`%0kd`). */
  function Digits(n: nat, k: nat): (r: string)
    ensures |r| == k && AllDigits(r)
  {
    if k == 0 then [] else Digits(n / 10, k - 1) + [DigitChar(n % 10)]
  }

  /** The value of a string of decimal digits. */
  function Number(s: string): nat
    requires AllDigits(s)
  {
    if s == [] then 0 else Number(s[..|s| - 1]) * 10 + (s[|s| - 1] as int - '0' as int)
  }

  lemma {:induction false} NumberOfDigits(n: nat, k: nat)
    requires n < Pow10(k)
    ensures Number(Digits(n, k)) == n
  {
    if k > 0 {
      NumberOfDigits(n / 10, k - 1);
      var r := Digits(n, k);
      assert r[..k - 1] == Digits(n / 10, k - 1);
    }
  }

  lemma {:induction false} DigitsOfNumber(s: string)
    requires AllDigits(s)
    ensures Number(s) < Pow10(|s|) && Digits(Number(s), |s|) == s
  {
    if s != [] {
      var front := s[..|s| - 1];
      DigitsOfNumber(front);
      assert s == front + [s[|s| - 1]];
    }
  }

  /** Zero-padded numerals of one width compare as text exactly as the numbers do. */
  lemma {:induction false} DigitsOrder(n: nat, m: nat, k: nat)
    requires n < Pow10(k) && m < Pow10(k)
    ensures TextLe(Digits(n, k), Digits(m, k)) <==> n <= m
  {
    if k > 0 {
      var hn, hm := Digits(n / 10, k - 1), Digits(m / 10, k - 1);
      var cn, cm := DigitChar(n % 10), DigitChar(m % 10);
      LastDigitSplit(n, m, k);
      DigitsOrder(n / 10, m / 10, k - 1);
      TextLeConcat(hn, [cn], hm, [cm]);
      NumberOfDigits(n / 10, k - 1);
      NumberOfDigits(m / 10, k - 1);
      assert hn == hm <==> n / 10 == m / 10;
      SingleDigitOrder(n % 10, m % 10);
    }
  }

  lemma SingleDigitOrder(a: nat, b: nat)
    requires a < 10 && b < 10
    ensures TextLe([DigitChar(a)], [DigitChar(b)]) <==> a <= b
  {
  }

  /** Comparing two numbers is comparing all but their last digit, then the last digit. */
  lemma LastDigitSplit(n: nat, m: nat, k: nat)
    requires k > 0 && n < Pow10(k) && m < Pow10(k)
    ensures n / 10 < Pow10(k - 1) && m / 10 < Pow10(k - 1)
    ensures n <= m <==> n / 10 < m / 10 || (n / 10 == m / 10 && n % 10 <= m % 10)
  {
  }

  // ---- ISO text form ----

  /** `date.isoformat()`, the text the sqlite3 module stores for a date. */
  function IsoFormat(d: Date): (s: string)
    requires ValidDate(d)
    ensures |s| == 10
  {
    Digits(d.year, 4) + (['-'] + (Digits(d.month, 2) + (['-'] + Digits(d.day, 2))))
  }

  /**
    Reading `YYYY-MM-DD` back into a date; `None` where `strptime` raises
    ValueError (wrong shape, or a date the calendar does not have).
   */
  function ParseIso(s: string): (r: Option<Date>)
    ensures r.Some? ==> ValidDate(r.value)
  {
    if |s| == 10 && s[4] == '-' && s[7] == '-' && AllDigits(s[..4]) && AllDigits(s[5..7]) && AllDigits(s[8..]) then
      var d := Date(Number(s[..4]), Number(s[5..7]), Number(s[8..]));
      if ValidDate(d) then Some(d) else None
    else None
  }

  /** Formatting then parsing gives back the date. */
  lemma ParseIsoFormat(d: Date)
    requires ValidDate(d)
    ensures ParseIso(IsoFormat(d)) == Some(d)
  {
    var s := IsoFormat(d);
    assert s[..4] == Digits(d.year, 4);
    assert s[5..7] == Digits(d.month, 2);
    assert s[8..] == Digits(d.day, 2);
    NumberOfDigits(d.year, 4);
    NumberOfDigits(d.month, 2);
    NumberOfDigits(d.day, 2);
  }

  /** Every text that parses is the ISO form of the date it parses to. */
  lemma FormatParseIso(s: string)
    requires ParseIso(s).Some?
    ensures IsoFormat(ParseIso(s).value) == s
  {
    DigitsOfNumber(s[..4]);
    DigitsOfNumber(s[5..7]);
    DigitsOfNumber(s[8..]);
    assert s == s[..4] + (['-'] + (s[5..7] + (['-'] + s[8..])));
  }

  /** ISO texts of valid dates sort as text exactly as the dates sort in time. */
  lemma IsoFormatOrder(a: Date, b: Date)
    requires ValidDate(a) && ValidDate(b)
    ensures TextLe(IsoFormat(a), IsoFormat(b)) <==> DateLe(a, b)
  {
    var ya, yb := Digits(a.year, 4), Digits(b.year, 4);
    var ma, mb := Digits(a.month, 2), Digits(b.month, 2);
    var da, db := Digits(a.day, 2), Digits(b.day, 2);
    var dash: string := ['-'];
    DigitsOrder(a.year, b.year, 4);
    DigitsOrder(a.month, b.month, 2);
    DigitsOrder(a.day, b.day, 2);
    NumberOfDigits(a.year, 4);
    NumberOfDigits(b.year, 4);
    NumberOfDigits(a.month, 2);
    NumberOfDigits(b.month, 2);
    TextLeConcat(ya, dash + (ma + (dash + da)), yb, dash + (mb + (dash + db)));
    TextLeConcat(dash, ma + (dash + da), dash, mb + (dash + db));
    TextLeConcat(ma, dash + da, mb, dash + db);
    TextLeConcat(dash, da, dash, db);
  }
}
