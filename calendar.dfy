/** The proleptic Gregorian calendar as Python's `datetime.date` implements it:
    dates from 0001-01-01 to 9999-12-31, day numbers as `toordinal` gives them
    (0001-01-01 is day 1), adding a number of days with the `OverflowError`
    Python raises outside that range, and the `%Y%m%d` text form read by
    `strptime` and written by `strftime`. */
module Calendar {
  import opened Text
  import opened Wrappers

  datatype Date = Date(year: int, month: int, day: int)

  const MinYear := 1
  const MaxYear := 9999
  const MaxDate := Date(9999, 12, 31)
  const MinDate := Date(1, 1, 1)

  predicate IsLeap(y: int) {
    y % 4 == 0 && (y % 100 != 0 || y % 400 == 0)
  }

  function DaysInYear(y: int): int {
    if IsLeap(y) then 366 else 365
  }

  function DaysInMonth(y: int, m: int): (n: int)
    requires 1 <= m <= 12
    ensures 28 <= n <= 31
  {
    if m == 2 then (if IsLeap(y) then 29 else 28)
    else if m == 4 || m == 6 || m == 9 || m == 11 then 30
    else 31
  }

  predicate Valid(d: Date) {
    MinYear <= d.year <= MaxYear && 1 <= d.month <= 12 && 1 <= d.day <= DaysInMonth(d.year, d.month)
  }

  /** Days in the years before `y` (Python's `_days_before_year`). */
  function DaysBeforeYear(y: int): int {
    var y1 := y - 1;
    y1 * 365 + y1 / 4 - y1 / 100 + y1 / 400
  }

  /** Days in the months of `y` before `m` (Python's `_days_before_month`). */
  function DaysBeforeMonth(y: int, m: int): int
    requires 1 <= m <= 12
  {
    var table := [0, 31, 59, 90, 120, 151, 181, 212, 243, 273, 304, 334];
    table[m - 1] + (if m > 2 && IsLeap(y) then 1 else 0)
  }

  /** Python's `date.toordinal()`. */
  function Ordinal(d: Date): int
    requires 1 <= d.month <= 12
  {
    DaysBeforeYear(d.year) + DaysBeforeMonth(d.year, d.month) + d.day
  }

  const MaxOrdinal := 3652059

  lemma MaxOrdinalIs()
    ensures Ordinal(MaxDate) == MaxOrdinal
  {
  }

  /** The day after `d`, by the calendar alone (no upper bound). */
  function Next(d: Date): (e: Date)
    requires Valid(d)
  {
    if d.day < DaysInMonth(d.year, d.month) then Date(d.year, d.month, d.day + 1)
    else if d.month < 12 then Date(d.year, d.month + 1, 1)
    else Date(d.year + 1, 1, 1)
  }

  /** The day before `d`, by the calendar alone (no lower bound). */
  function Prev(d: Date): (e: Date)
    requires Valid(d)
  {
    if d.day > 1 then Date(d.year, d.month, d.day - 1)
    else if d.month > 1 then Date(d.year, d.month - 1, DaysInMonth(d.year, d.month - 1))
    else Date(d.year - 1, 12, 31)
  }

  lemma YearStep(y: int)
    ensures DaysBeforeYear(y + 1) == DaysBeforeYear(y) + DaysInYear(y)
  {
    var y1 := y - 1;
    assert y / 4 - y1 / 4 == (if y % 4 == 0 then 1 else 0);
    assert y / 100 - y1 / 100 == (if y % 100 == 0 then 1 else 0);
    assert y / 400 - y1 / 400 == (if y % 400 == 0 then 1 else 0);
  }

  lemma MonthStep(y: int, m: int)
    requires 1 <= m < 12
    ensures DaysBeforeMonth(y, m + 1) == DaysBeforeMonth(y, m) + DaysInMonth(y, m)
  {
  }

  /** The next day is one day number later, and a valid date unless `d` is the last one. */
  lemma NextOrdinal(d: Date)
    requires Valid(d)
    ensures Ordinal(Next(d)) == Ordinal(d) + 1
    ensures d != MaxDate ==> Valid(Next(d))
  {
    if d.day == DaysInMonth(d.year, d.month) {
      if d.month < 12 {
        MonthStep(d.year, d.month);
      } else {
        YearStep(d.year);
      }
    }
  }

  /** The previous day is one day number earlier, and a valid date unless `d` is the first one. */
  lemma PrevOrdinal(d: Date)
    requires Valid(d)
    ensures Ordinal(Prev(d)) == Ordinal(d) - 1
    ensures d != MinDate ==> Valid(Prev(d))
  {
    if d.day == 1 {
      if d.month > 1 {
        MonthStep(d.year, d.month - 1);
      } else {
        YearStep(d.year - 1);
      }
    }
  }

  lemma NextPrev(d: Date)
    requires Valid(d)
    ensures d != MaxDate ==> Prev(Next(d)) == d
    ensures d != MinDate ==> Next(Prev(d)) == d
  {
  }

  /** Every valid date has a day number in `1 .. MaxOrdinal`; the last date
      alone reaches `MaxOrdinal`. */
  lemma OrdinalRange(d: Date)
    requires Valid(d)
    ensures 1 <= Ordinal(d) <= MaxOrdinal
    ensures Ordinal(d) == MaxOrdinal <==> d == MaxDate
    ensures Ordinal(d) == 1 <==> d == MinDate
  {
    var y := d.year;
    YearStep(y);
    assert DaysBeforeMonth(y, d.month) + d.day <= DaysInYear(y) by {
      if d.month < 12 {
        MonthStep(y, d.month);
        MonthsBefore(y, d.month + 1);
      }
    }
    if y < MaxYear {
      DaysBeforeYearGrows(y + 1, MaxYear);
    }
    if y > MinYear {
      DaysBeforeYearGrows(MinYear + 1, y);
      YearStep(MinYear);
    }
  }

  lemma MonthsBefore(y: int, m: int)
    requires 1 <= m <= 12
    ensures DaysBeforeMonth(y, m) + DaysInMonth(y, m) <= DaysInYear(y)
    ensures DaysBeforeMonth(y, m) + DaysInMonth(y, m) == DaysInYear(y) <==> m == 12
  {
  }

  lemma {:induction false} DaysBeforeYearGrows(a: int, b: int)
    requires a <= b
    ensures DaysBeforeYear(a) + 365 * (b - a) <= DaysBeforeYear(b)
    decreases b - a
  {
    if a < b {
      DaysBeforeYearGrows(a + 1, b);
      YearStep(a);
    }
  }

  /** Python's `date + timedelta(days=k)`: `None` where Python raises
      `OverflowError` because the result is outside 0001-01-01 .. 9999-12-31. */
  function AddDays(d: Date, k: int): Option<Date>
    requires Valid(d)
    decreases if k >= 0 then k else -k
  {
    if k == 0 then Some(d)
    else if k > 0 then (if d == MaxDate then None else (NextOrdinal(d); AddDays(Next(d), k - 1)))
    else (if d == MinDate then None else (PrevOrdinal(d); AddDays(Prev(d), k + 1)))
  }

  /** Adding `k` days moves the day number by `k`, and fails exactly when the
      resulting day number is outside the calendar. */
  lemma {:induction false} AddDaysOrdinal(d: Date, k: int)
    requires Valid(d)
    ensures AddDays(d, k).Some? <==> 1 <= Ordinal(d) + k <= MaxOrdinal
    ensures AddDays(d, k).Some? ==> Valid(AddDays(d, k).value) && Ordinal(AddDays(d, k).value) == Ordinal(d) + k
    decreases if k >= 0 then k else -k
  {
    OrdinalRange(d);
    if k > 0 && d != MaxDate {
      NextOrdinal(d);
      AddDaysOrdinal(Next(d), k - 1);
    } else if k < 0 && d != MinDate {
      PrevOrdinal(d);
      AddDaysOrdinal(Prev(d), k + 1);
    }
  }

  /** Two valid dates with the same day number are the same date. */
  lemma OrdinalInjective(a: Date, b: Date)
    requires Valid(a) && Valid(b)
    ensures Ordinal(a) == Ordinal(b) ==> a == b
  {
    if a.year < b.year {
      YearEndBefore(a, b);
    } else if b.year < a.year {
      YearEndBefore(b, a);
    } else if a.month < b.month {
      MonthEndBefore(a, b);
    } else if b.month < a.month {
      MonthEndBefore(b, a);
    }
  }

  lemma YearEndBefore(a: Date, b: Date)
    requires Valid(a) && Valid(b) && a.year < b.year
    ensures Ordinal(a) < Ordinal(b)
  {
    MonthsBefore(a.year, a.month);
    YearStep(a.year);
    DaysBeforeYearGrows(a.year + 1, b.year);
  }

  lemma MonthEndBefore(a: Date, b: Date)
    requires Valid(a) && Valid(b) && a.year == b.year && a.month < b.month
    ensures Ordinal(a) < Ordinal(b)
  {
    var y := a.year;
    var m := a.month;
    MonthStep(y, m);
    MonthsGrow(y, m + 1, b.month);
  }

  lemma {:induction false} MonthsGrow(y: int, m: int, n: int)
    requires 1 <= m <= n <= 12
    ensures DaysBeforeMonth(y, m) <= DaysBeforeMonth(y, n)
  {
  }

  // ---------------------------------------------------------------------------
  // The `%Y%m%d` text form

  /** `strptime(s, "%Y%m%d")` on eight ASCII digits: it succeeds exactly when
      the four-digit year, two-digit month and two-digit day name a real date. */
  function ParseYmd(s: string): (r: Option<Date>)
    requires |s| == 8 && AllDigits(s)
    ensures r.Some? ==> Valid(r.value)
  {
    var d := SplitYmd(s);
    if Valid(d) then Some(d) else None
  }

  /** `int(s[:4]), int(s[4:6]), int(s[6:])`: the three numbers of an
      eight-digit date, whether or not they name a real date. */
  function SplitYmd(s: string): (d: Date)
    requires |s| == 8 && AllDigits(s)
    ensures 0 <= d.year <= 9999 && 0 <= d.month <= 99 && 0 <= d.day <= 99
  {
    assert AllDigits(s[..4]) && AllDigits(s[4..6]) && AllDigits(s[6..]);
    DigitsBound(s[..4]);
    DigitsBound(s[4..6]);
    DigitsBound(s[6..]);
    Date(DigitsValue(s[..4]), DigitsValue(s[4..6]), DigitsValue(s[6..]))
  }

  /** `strftime("%Y%m%d")`, with the year written in four digits. */
  function FormatYmd(d: Date): (s: string)
    requires Valid(d)
    ensures |s| == 8 && AllDigits(s)
  {
    ZeroPad(d.year, 4) + ZeroPad(d.month, 2) + ZeroPad(d.day, 2)
  }

  lemma {:induction false} DigitsBound(s: string)
    requires AllDigits(s)
    ensures DigitsValue(s) < Pow10(|s|)
  {
    if |s| > 0 {
      DigitsBound(s[..|s| - 1]);
    }
  }

  /** Writing a date and reading it back yields the same date. */
  lemma ParseFormat(d: Date)
    requires Valid(d)
    ensures SplitYmd(FormatYmd(d)) == d
    ensures ParseYmd(FormatYmd(d)) == Some(d)
  {
    var s := FormatYmd(d);
    assert s[..4] == ZeroPad(d.year, 4);
    assert s[4..6] == ZeroPad(d.month, 2);
    assert s[6..] == ZeroPad(d.day, 2);
    ZeroPadValue(d.year, 4);
    ZeroPadValue(d.month, 2);
    ZeroPadValue(d.day, 2);
  }

  /** Reading an eight-digit date and writing it again yields the same text. */
  lemma FormatParse(s: string)
    requires |s| == 8 && AllDigits(s)
    ensures ParseYmd(s).Some? ==> FormatYmd(ParseYmd(s).value) == s
  {
    if Valid(SplitYmd(s)) {
      SplitFormat(s);
    }
  }

  lemma SplitFormat(s: string)
    requires |s| == 8 && AllDigits(s) && Valid(SplitYmd(s))
    ensures FormatYmd(SplitYmd(s)) == s
  {
    var a, b, c := s[..4], s[4..6], s[6..];
    assert AllDigits(a) && AllDigits(b) && AllDigits(c);
    ZeroPadDigits(a);
    ZeroPadDigits(b);
    ZeroPadDigits(c);
    assert s == a + b + c;
  }

  lemma {:induction false} ZeroPadDigits(s: string)
    requires AllDigits(s)
    ensures ZeroPad(DigitsValue(s), |s|) == s
  {
    if |s| > 0 {
      var init := s[..|s| - 1];
      var n := DigitsValue(s);
      assert AllDigits(init);
      ZeroPadDigits(init);
      assert n / 10 == DigitsValue(init) && n % 10 == DigitValue(s[|s| - 1]);
      DigitRoundTrip(s[|s| - 1]);
      assert s == init + [s[|s| - 1]];
    }
  }

  lemma DigitRoundTrip(c: char)
    requires IsDigit(c)
    ensures DigitChar(DigitValue(c)) == c
  {
  }
}
