/** The calendar that PHP's DateTime supplies to the source: `Y-m-d`
    rendering and strict parsing, adding days, and the day count behind
    `diff()->days`. Proleptic Gregorian calendar, years from 0. */
module Dates {
  import opened Outcomes
  import opened Text

  datatype Date = Date(year: int, month: int, day: int)

  predicate IsLeapYear(y: int) {
    (y % 4 == 0 && y % 100 != 0) || y % 400 == 0
  }

  function DaysInMonth(y: int, m: int): (n: int)
    requires 1 <= m <= 12
    ensures 28 <= n <= 31
  {
    if m == 2 then (if IsLeapYear(y) then 29 else 28)
    else if m == 4 || m == 6 || m == 9 || m == 11 then 30
    else 31
  }

  /** A real calendar day in a year from 0 on. */
  predicate IsCalendarDate(d: Date) {
    0 <= d.year && 1 <= d.month <= 12 && 1 <= d.day <= DaysInMonth(d.year, d.month)
  }

  /** A calendar day whose year has at most four digits: the days `Y-m-d` can name. */
  predicate ValidDate(d: Date) {
    IsCalendarDate(d) && d.year <= 9999
  }

  /** The days a clock reading `date('Y-m-d')` can give. */
  type Day = d: Date | ValidDate(d) witness Date(2000, 1, 1)

  /** `d1` is an earlier day than `d2`. */
  predicate Before(d1: Date, d2: Date) {
    d1.year < d2.year
    || (d1.year == d2.year && d1.month < d2.month)
    || (d1.year == d2.year && d1.month == d2.month && d1.day < d2.day)
  }

  // ---------------------------------------------------------------------
  // Fixed-width decimal fields

  function Pow10(k: nat): (p: nat)
    ensures p >= 1
  {
    if k == 0 then 1 else 10 * Pow10(k - 1)
  }

  /** The last `k` decimal digits of `n`, zero-padded. */
  function FixedDigits(n: nat, k: nat): (r: string)
    ensures |r| == k && AllDigits(r)
  {
    if k == 0 then [] else FixedDigits(n / 10, k - 1) + [DigitChar(n % 10)]
  }

  lemma {:induction false} FixedDigitsValue(n: nat, k: nat)
    requires n < Pow10(k)
    ensures DigitsValue(FixedDigits(n, k)) == n
  {
    if k > 0 {
      var r := FixedDigits(n, k);
      assert r[..k - 1] == FixedDigits(n / 10, k - 1);
      FixedDigitsValue(n / 10, k - 1);
    }
  }

  /** A digit string is the fixed-width rendering of its own value. */
  lemma {:induction false} FixedDigitsOfValue(s: string)
    requires AllDigits(s)
    ensures DigitsValue(s) < Pow10(|s|)
    ensures FixedDigits(DigitsValue(s), |s|) == s
  {
    if s != [] {
      var init := s[..|s| - 1];
      FixedDigitsOfValue(init);
      assert s == init + [s[|s| - 1]];
    }
  }

  lemma {:induction false} DigitsValueInjective(s: string, t: string)
    requires AllDigits(s) && AllDigits(t) && |s| == |t|
    requires DigitsValue(s) == DigitsValue(t)
    ensures s == t
  {
    FixedDigitsOfValue(s);
    FixedDigitsOfValue(t);
  }

  /** Equal-length digit strings sort as strings exactly as their values sort. */
  lemma {:induction false} DigitOrder(s: string, t: string)
    requires AllDigits(s) && AllDigits(t) && |s| == |t|
    ensures LexLess(s, t) <==> DigitsValue(s) < DigitsValue(t)
    decreases |s|
  {
    if s == [] {
      return;
    }
    var s', t' := s[..|s| - 1], t[..|t| - 1];
    var c, d := [s[|s| - 1]], [t[|t| - 1]];
    assert s == s' + c && t == t' + d;
    DigitOrder(s', t');
    if s' == t' {
      LexLessCommonPrefix(s', c, d);
    } else {
      LexLessFirstDifference(s', t', c, d);
      if DigitsValue(s') == DigitsValue(t') {
        DigitsValueInjective(s', t');
      }
    }
  }

  // ---------------------------------------------------------------------
  // Y-m-d rendering and parsing

  /** DateTime::format('Y-m-d'): a year of at least four digits, two-digit month and day. */
  function Render(d: Date): (s: string)
    requires IsCalendarDate(d)
  {
    (if d.year < 10000 then FixedDigits(d.year, 4) else NatToString(d.year))
    + "-" + FixedDigits(d.month, 2) + "-" + FixedDigits(d.day, 2)
  }

  /** The date a string names, when it is exactly `YYYY-MM-DD` for a real day. */
  function Parse(s: string): (r: Option<Date>)
    ensures r.Some? ==> ValidDate(r.value)
  {
    if |s| == 10 && s[4] == '-' && s[7] == '-'
       && AllDigits(s[..4]) && AllDigits(s[5..7]) && AllDigits(s[8..])
    then
      var d := Date(DigitsValue(s[..4]), DigitsValue(s[5..7]), DigitsValue(s[8..]));
      if IsCalendarDate(d) then (FixedDigitsOfValue(s[..4]); Some(d)) else None
    else None
  }

  /** Parsing reads back every rendered date. */
  lemma ParseRender(d: Date)
    requires ValidDate(d)
    ensures Parse(Render(d)) == Some(d)
  {
    var s := Render(d);
    var y, m, dd := FixedDigits(d.year, 4), FixedDigits(d.month, 2), FixedDigits(d.day, 2);
    assert s[..4] == y && s[5..7] == m && s[8..] == dd;
    FixedDigitsValue(d.year, 4);
    FixedDigitsValue(d.month, 2);
    FixedDigitsValue(d.day, 2);
  }

  /** Only canonical renderings parse: the string is the rendering of its date. */
  lemma RenderParse(s: string)
    requires Parse(s).Some?
    ensures Render(Parse(s).value) == s
  {
    FixedDigitsOfValue(s[..4]);
    FixedDigitsOfValue(s[5..7]);
    FixedDigitsOfValue(s[8..]);
    assert s == s[..4] + "-" + s[5..7] + "-" + s[8..];
  }

  /** Strings led by equal-width numeric fields compare by the fields'
      values first, then by what follows. */
  lemma FieldFirstOrder(s: string, t: string, u: string, v: string)
    requires AllDigits(s) && AllDigits(t) && |s| == |t|
    ensures LexLess(s + u, t + v) <==> DigitsValue(s) < DigitsValue(t) || (s == t && LexLess(u, v))
  {
    DigitOrder(s, t);
    if s == t {
      LexLessCommonPrefix(s, u, v);
    } else {
      LexLessFirstDifference(s, t, u, v);
      if DigitsValue(s) == DigitsValue(t) {
        DigitsValueInjective(s, t);
      }
    }
  }

  /** A rendering with four-digit year, as its three fields. */
  lemma RenderFields(d: Date)
    requires ValidDate(d)
    ensures Render(d) == FixedDigits(d.year, 4) + ("-" + (FixedDigits(d.month, 2) + ("-" + FixedDigits(d.day, 2))))
  {
  }

  /** For four-digit years, string order of renderings is calendar order. */
  lemma RenderOrder(d1: Date, d2: Date)
    requires ValidDate(d1) && ValidDate(d2)
    ensures LexLess(Render(d1), Render(d2)) <==> Before(d1, d2)
  {
    var y1, y2 := FixedDigits(d1.year, 4), FixedDigits(d2.year, 4);
    var m1, m2 := FixedDigits(d1.month, 2), FixedDigits(d2.month, 2);
    var a1, a2 := FixedDigits(d1.day, 2), FixedDigits(d2.day, 2);
    FixedDigitsValue(d1.year, 4);
    FixedDigitsValue(d2.year, 4);
    FixedDigitsValue(d1.month, 2);
    FixedDigitsValue(d2.month, 2);
    FixedDigitsValue(d1.day, 2);
    FixedDigitsValue(d2.day, 2);
    RenderFields(d1);
    RenderFields(d2);
    DigitOrder(a1, a2);
    LexLessCommonPrefix("-", a1, a2);
    FieldFirstOrder(m1, m2, "-" + a1, "-" + a2);
    LexLessCommonPrefix("-", m1 + ("-" + a1), m2 + ("-" + a2));
    FieldFirstOrder(y1, y2, "-" + (m1 + ("-" + a1)), "-" + (m2 + ("-" + a2)));
  }

  // ---------------------------------------------------------------------
  // Adding days

  function NextDay(d: Date): (r: Date)
    requires IsCalendarDate(d)
    ensures IsCalendarDate(r)
  {
    if d.day < DaysInMonth(d.year, d.month) then Date(d.year, d.month, d.day + 1)
    else if d.month < 12 then Date(d.year, d.month + 1, 1)
    else Date(d.year + 1, 1, 1)
  }

  /** `d` plus `n` days (DateTime::add with a `PnD` interval). */
  function AddDays(d: Date, n: nat): (r: Date)
    requires IsCalendarDate(d)
    ensures IsCalendarDate(r)
    decreases n
  {
    if n == 0 then d else AddDays(NextDay(d), n - 1)
  }

  function YearLength(y: int): int {
    if IsLeapYear(y) then 366 else 365
  }

  function DaysBeforeYear(y: nat): nat {
    if y == 0 then 0 else DaysBeforeYear(y - 1) + YearLength(y - 1)
  }

  function DaysBeforeMonth(y: int, m: int): nat
    requires 1 <= m <= 12
  {
    if m == 1 then 0 else DaysBeforeMonth(y, m - 1) + DaysInMonth(y, m - 1)
  }

  /** Days elapsed since 0000-01-01. */
  function DayNumber(d: Date): nat
    requires IsCalendarDate(d)
  {
    DaysBeforeYear(d.year) + DaysBeforeMonth(d.year, d.month) + d.day - 1
  }

  lemma YearEnd(y: int)
    ensures DaysBeforeMonth(y, 12) + DaysInMonth(y, 12) == YearLength(y)
  {
    var feb := DaysInMonth(y, 2);
    assert DaysBeforeMonth(y, 2) == 31;
    assert DaysBeforeMonth(y, 3) == 31 + feb;
    assert DaysBeforeMonth(y, 4) == 62 + feb;
    assert DaysBeforeMonth(y, 5) == 92 + feb;
    assert DaysBeforeMonth(y, 6) == 123 + feb;
    assert DaysBeforeMonth(y, 7) == 153 + feb;
    assert DaysBeforeMonth(y, 8) == 184 + feb;
    assert DaysBeforeMonth(y, 9) == 215 + feb;
    assert DaysBeforeMonth(y, 10) == 245 + feb;
    assert DaysBeforeMonth(y, 11) == 276 + feb;
    assert DaysBeforeMonth(y, 12) == 306 + feb;
  }

  /** The day after `d` has the next day number. */
  lemma NextDayNumber(d: Date)
    requires IsCalendarDate(d)
    ensures DayNumber(NextDay(d)) == DayNumber(d) + 1
  {
    if d.day == DaysInMonth(d.year, d.month) && d.month == 12 {
      YearEnd(d.year);
    }
  }

  lemma {:induction false} AddDaysNumber(d: Date, n: nat)
    requires IsCalendarDate(d)
    ensures DayNumber(AddDays(d, n)) == DayNumber(d) + n
    decreases n
  {
    if n > 0 {
      NextDayNumber(d);
      AddDaysNumber(NextDay(d), n - 1);
    }
  }

  lemma {:induction false} MonthFitsInYear(y: int, m: int)
    requires 1 <= m <= 12
    ensures DaysBeforeMonth(y, m) + DaysInMonth(y, m) <= YearLength(y)
    decreases 12 - m
  {
    if m == 12 {
      YearEnd(y);
    } else {
      MonthFitsInYear(y, m + 1);
    }
  }

  lemma {:induction false} MonthsIncrease(y: int, m1: int, m2: int)
    requires 1 <= m1 < m2 <= 12
    ensures DaysBeforeMonth(y, m1) + DaysInMonth(y, m1) <= DaysBeforeMonth(y, m2)
    decreases m2 - m1
  {
    if m1 + 1 < m2 {
      MonthsIncrease(y, m1, m2 - 1);
    }
  }

  lemma {:induction false} YearsIncrease(y1: nat, y2: nat)
    requires y1 < y2
    ensures DaysBeforeYear(y1) + YearLength(y1) <= DaysBeforeYear(y2)
    decreases y2 - y1
  {
    if y1 + 1 < y2 {
      YearsIncrease(y1, y2 - 1);
    }
  }

  /** Day numbers follow calendar order. */
  lemma DayNumberOrder(d1: Date, d2: Date)
    requires IsCalendarDate(d1) && IsCalendarDate(d2) && Before(d1, d2)
    ensures DayNumber(d1) < DayNumber(d2)
  {
    if d1.year < d2.year {
      MonthFitsInYear(d1.year, d1.month);
      YearsIncrease(d1.year, d2.year);
    } else if d1.month < d2.month {
      MonthsIncrease(d1.year, d1.month, d2.month);
    }
  }

  /** Fewer than 365 days ahead lies at most in the next year. */
  lemma ShortSpanYear(d: Date, n: nat)
    requires IsCalendarDate(d) && n < 365
    ensures d.year <= AddDays(d, n).year <= d.year + 1
  {
    var e := AddDays(d, n);
    AddDaysNumber(d, n);
    MonthFitsInYear(d.year, d.month);
    if e.year > d.year + 1 {
      YearsIncrease(d.year, d.year + 1);
      YearsIncrease(d.year + 1, e.year);
    } else if e.year < d.year {
      MonthFitsInYear(e.year, e.month);
      YearsIncrease(e.year, d.year);
    }
  }

  /** A later date never renders before an earlier one: adding a positive
      number of days moves the `Y-m-d` rendering forward. */
  lemma AddDaysRendersLater(d: Date, n: nat)
    requires ValidDate(d) && n > 0 && ValidDate(AddDays(d, n))
    ensures LexLess(Render(d), Render(AddDays(d, n)))
  {
    var e := AddDays(d, n);
    AddDaysNumber(d, n);
    if !Before(d, e) {
      if d == e {
      } else {
        DayNumberOrder(e, d);
      }
    }
    RenderOrder(d, e);
  }
}
