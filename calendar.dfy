/** The proleptic Gregorian calendar as JavaScript's `Date` uses it, for the step that
    turns an ordinal date `YYYYDDD` (ISO 8601 ordinal date, basic format) into the
    calendar-date key `YYYYMMDD` (ISO 8601 calendar date, basic format):
    `new Date(year, 0, dayOfYear).toISOString().slice(0, 10).replace(/-/g, '')`.

    `new Date(y, m, d)` builds local midnight and `toISOString` reads UTC. The model
    assumes the host runs at UTC or west of it (a zero or negative offset), where local
    midnight falls on the same UTC date; east of UTC every key is one day earlier. */
module Calendar {
  import opened Text

  datatype Date = Date(year: int, month: int, day: int)

  predicate IsLeapYear(y: int) {
    y % 4 == 0 && (y % 100 != 0 || y % 400 == 0)
  }

  function DaysInYear(y: int): int {
    if IsLeapYear(y) then 366 else 365
  }

  function DaysInMonth(y: int, m: int): int
    requires 1 <= m <= 12
  {
    if m == 2 then (if IsLeapYear(y) then 29 else 28)
    else if m == 4 || m == 6 || m == 9 || m == 11 then 30
    else 31
  }

  predicate ValidDate(d: Date) {
    1 <= d.month <= 12 && 1 <= d.day <= DaysInMonth(d.year, d.month)
  }

  /** The days of year `y` before the first of month `m`; month 13 stands for the
      first day after the year. */
  function DaysBeforeMonth(y: int, m: int): int
    requires 1 <= m <= 13
  {
    if m == 1 then 0 else DaysBeforeMonth(y, m - 1) + DaysInMonth(y, m - 1)
  }

  /** The twelve months make up the year. */
  lemma MonthsMakeYear(y: int)
    ensures DaysBeforeMonth(y, 13) == DaysInYear(y)
  {
    assert DaysBeforeMonth(y, 2) == 31;
    assert DaysBeforeMonth(y, 3) == 31 + DaysInMonth(y, 2);
    assert DaysBeforeMonth(y, 4) == DaysBeforeMonth(y, 3) + 31;
    assert DaysBeforeMonth(y, 5) == DaysBeforeMonth(y, 3) + 61;
    assert DaysBeforeMonth(y, 6) == DaysBeforeMonth(y, 3) + 92;
    assert DaysBeforeMonth(y, 7) == DaysBeforeMonth(y, 3) + 122;
    assert DaysBeforeMonth(y, 8) == DaysBeforeMonth(y, 3) + 153;
    assert DaysBeforeMonth(y, 9) == DaysBeforeMonth(y, 3) + 184;
    assert DaysBeforeMonth(y, 10) == DaysBeforeMonth(y, 3) + 214;
    assert DaysBeforeMonth(y, 11) == DaysBeforeMonth(y, 3) + 245;
    assert DaysBeforeMonth(y, 12) == DaysBeforeMonth(y, 3) + 275;
    assert DaysBeforeMonth(y, 13) == DaysBeforeMonth(y, 3) + 306;
  }

  /** Earlier months start no later. */
  lemma {:induction false} DaysBeforeMonthMonotonic(y: int, m: int, m': int)
    requires 1 <= m <= m' <= 13
    ensures DaysBeforeMonth(y, m) <= DaysBeforeMonth(y, m')
    decreases m' - m
  {
    if m < m' {
      DaysBeforeMonthMonotonic(y, m, m' - 1);
    }
  }

  /** The ordinal of a date within its year, January 1 being 1. */
  function DayOfYear(d: Date): (n: int)
    requires ValidDate(d)
    ensures 1 <= n <= DaysInYear(d.year)
  {
    DaysBeforeMonthMonotonic(d.year, 1, d.month);
    DaysBeforeMonthMonotonic(d.year, d.month + 1, 13);
    MonthsMakeYear(d.year);
    DaysBeforeMonth(d.year, d.month) + d.day
  }

  /** The date `n` days into year `y`, counting from the first of month `m`. */
  function MonthAndDay(y: int, m: int, n: int): Date
    requires 1 <= m <= 12
    requires 1 <= n <= DaysInYear(y) - DaysBeforeMonth(y, m)
    decreases 12 - m
  {
    MonthsMakeYear(y);
    if n <= DaysInMonth(y, m) then Date(y, m, n)
    else MonthAndDay(y, m + 1, n - DaysInMonth(y, m))
  }

  /** January 1 of year `y` plus `n - 1` days, for `1 <= n <= 366`, as JavaScript's
      MakeDay computes it: day 366 of a common year is January 1 of the next year. */
  function DateOfOrdinal(y: int, n: int): (d: Date)
    requires 1 <= n <= 366
    ensures ValidDate(d)
    ensures d.year == y || d == Date(y + 1, 1, 1)
  {
    if n <= DaysInYear(y) then
      MonthAndDayValid(y, 1, n);
      MonthAndDay(y, 1, n)
    else Date(y + 1, 1, 1)
  }

  /** `MonthAndDay` lands on a valid date of year `y`, `n` days after month `m` starts. */
  lemma {:induction false} MonthAndDayValid(y: int, m: int, n: int)
    requires 1 <= m <= 12
    requires 1 <= n <= DaysInYear(y) - DaysBeforeMonth(y, m)
    ensures var d := MonthAndDay(y, m, n);
      ValidDate(d) && d.year == y && m <= d.month && DayOfYear(d) == DaysBeforeMonth(y, m) + n
    decreases 12 - m
  {
    MonthsMakeYear(y);
    if n > DaysInMonth(y, m) {
      assert DaysBeforeMonth(y, m + 1) == DaysBeforeMonth(y, m) + DaysInMonth(y, m);
      MonthAndDayValid(y, m + 1, n - DaysInMonth(y, m));
      assert MonthAndDay(y, m, n) == MonthAndDay(y, m + 1, n - DaysInMonth(y, m));
    } else {
      assert MonthAndDay(y, m, n) == Date(y, m, n);
    }
  }

  /** Walking the months from `m` finds every date of month `m` or later. */
  lemma {:induction false} MonthAndDayFinds(d: Date, m: int)
    requires ValidDate(d) && 1 <= m <= d.month
    ensures 1 <= DayOfYear(d) - DaysBeforeMonth(d.year, m) <= DaysInYear(d.year) - DaysBeforeMonth(d.year, m)
    ensures MonthAndDay(d.year, m, DayOfYear(d) - DaysBeforeMonth(d.year, m)) == d
    decreases d.month - m
  {
    var y := d.year;
    var n := DayOfYear(d) - DaysBeforeMonth(y, m);
    assert 1 <= n <= DaysInYear(y) - DaysBeforeMonth(y, m) by {
      assert DayOfYear(d) == DaysBeforeMonth(y, d.month) + d.day;
      assert DayOfYear(d) <= DaysInYear(y);
      DaysBeforeMonthMonotonic(y, m, d.month);
    }
    if m < d.month {
      DaysBeforeMonthMonotonic(y, m + 1, d.month);
      MonthAndDayNext(y, m, n);
      MonthAndDayFinds(d, m + 1);
    } else {
      assert MonthAndDay(y, m, n) == Date(y, m, d.day);
    }
  }

  /** Past the end of month `m`, the walk goes on in month `m + 1`. */
  lemma MonthAndDayNext(y: int, m: int, n: int)
    requires 1 <= m < 12
    requires DaysInMonth(y, m) < n <= DaysInYear(y) - DaysBeforeMonth(y, m)
    ensures DaysBeforeMonth(y, m + 1) == DaysBeforeMonth(y, m) + DaysInMonth(y, m)
    ensures MonthAndDay(y, m, n) == MonthAndDay(y, m + 1, n - DaysInMonth(y, m))
  {
  }

  /** Within the year, the conversion and `DayOfYear` are inverse: day `n` of year `y`
      is a date of year `y` whose ordinal is `n`, ... */
  lemma OrdinalRoundTrip(y: int, n: int)
    requires 1 <= n <= DaysInYear(y)
    ensures DateOfOrdinal(y, n).year == y && DayOfYear(DateOfOrdinal(y, n)) == n
  {
    MonthAndDayValid(y, 1, n);
  }

  /** ... and every valid date is the conversion of its own ordinal. */
  lemma DateRoundTrip(d: Date)
    requires ValidDate(d)
    ensures DateOfOrdinal(d.year, DayOfYear(d)) == d
  {
    MonthAndDayFinds(d, 1);
  }

  /** Day 1 of a year is its January 1. */
  lemma NewYearOrdinal(y: int)
    ensures DateOfOrdinal(y, 1) == Date(y, 1, 1)
  {
    assert MonthAndDay(y, 1, 1) == Date(y, 1, 1);
  }

  /** Day 366 of a common year rolls over to January 1 of the next year. */
  lemma CommonYearRollsOver(y: int)
    requires !IsLeapYear(y)
    ensures DateOfOrdinal(y, 366) == Date(y + 1, 1, 1)
  {
  }

  // ---------------------------------------------------------------------------
  // Day numbers: the conversion counts days from January 1

  /** The days from 0001-01-01 to January 1 of year `y` in the proleptic Gregorian
      calendar: the lengths of the years before it. */
  function DaysBeforeYear(y: int): int
    requires y >= 1
  {
    if y == 1 then 0 else DaysBeforeYear(y - 1) + DaysInYear(y - 1)
  }

  /** The number of days from 0001-01-01 to `d`. */
  function DayNumber(d: Date): int
    requires d.year >= 1 && ValidDate(d)
  {
    DaysBeforeYear(d.year) + DayOfYear(d) - 1
  }

  /** The year lengths add up to the usual closed form: 365 days a year, plus one for
      every fourth year, less one for every hundredth, plus one for every 400th. */
  lemma {:induction false} DaysBeforeYearClosedForm(y: int)
    requires y >= 1
    ensures var p := y - 1; DaysBeforeYear(y) == 365 * p + p / 4 - p / 100 + p / 400
    decreases y
  {
    if y > 1 {
      DaysBeforeYearClosedForm(y - 1);
      var p := y - 1;
      DivSteps(p);
      LeapYearByRemainders(p);
      assert DaysBeforeYear(y) == DaysBeforeYear(p) + DaysInYear(p);
    }
  }

  /** Counting multiples of 4, 100 and 400 up to `p`: each count is one more than up
      to `p - 1` exactly when `p` is such a multiple. */
  lemma DivSteps(p: int)
    ensures p / 4 == (p - 1) / 4 + (if p % 4 == 0 then 1 else 0)
    ensures p / 100 == (p - 1) / 100 + (if p % 100 == 0 then 1 else 0)
    ensures p / 400 == (p - 1) / 400 + (if p % 400 == 0 then 1 else 0)
  {
  }

  /** The leap-year rule in terms of the three remainders. */
  lemma LeapYearByRemainders(p: int)
    ensures DaysInYear(p) == 365 + (if p % 4 == 0 then 1 else 0)
      - (if p % 100 == 0 then 1 else 0) + (if p % 400 == 0 then 1 else 0)
  {
    if p % 100 == 0 {
      var c := p / 100;
      assert p == 4 * (25 * c);
    }
    if p % 400 == 0 {
      var c := p / 400;
      assert p == 100 * (4 * c);
    }
  }

  /** January 1 is day 0 of its year's count. */
  lemma NewYearDayNumber(y: int)
    requires y >= 1
    ensures DayNumber(Date(y, 1, 1)) == DaysBeforeYear(y)
  {
    assert DayOfYear(Date(y, 1, 1)) == 1;
  }

  /** `DateOfOrdinal(y, n)` is the date `n - 1` days after January 1 of `y`, for every
      day 1..366, the rollover of day 366 in a common year included. */
  lemma OrdinalIsOffsetFromNewYear(y: int, n: int)
    requires y >= 1 && 1 <= n <= 366
    ensures DateOfOrdinal(y, n).year >= 1
    ensures DayNumber(DateOfOrdinal(y, n)) == DayNumber(Date(y, 1, 1)) + n - 1
  {
    NewYearDayNumber(y);
    if n <= DaysInYear(y) {
      InYearDayNumber(y, n);
    } else {
      RolloverDayNumber(y);
    }
  }

  lemma InYearDayNumber(y: int, n: int)
    requires y >= 1 && 1 <= n <= DaysInYear(y)
    ensures DateOfOrdinal(y, n).year == y
    ensures DayNumber(DateOfOrdinal(y, n)) == DaysBeforeYear(y) + n - 1
  {
    OrdinalRoundTrip(y, n);
  }

  lemma RolloverDayNumber(y: int)
    requires y >= 1 && !IsLeapYear(y)
    ensures DateOfOrdinal(y, 366).year == y + 1
    ensures DayNumber(DateOfOrdinal(y, 366)) == DaysBeforeYear(y) + 365
  {
    assert DateOfOrdinal(y, 366) == Date(y + 1, 1, 1);
    NewYearDayNumber(y + 1);
    assert DaysBeforeYear(y + 1) == DaysBeforeYear(y) + 365;
  }

  // ---------------------------------------------------------------------------
  // JavaScript's Date

  /** The full year `new Date(year, month, day)` uses: years 0..99 mean 1900..1999. */
  function JsFullYear(year: int): int {
    if 0 <= year <= 99 then 1900 + year else year
  }

  /** `new Date(year, 0, dayOfYear)`, as a calendar date. */
  function JsDateOfOrdinal(year: int, dayOfYear: int): Date
    requires 1 <= dayOfYear <= 366
  {
    DateOfOrdinal(JsFullYear(year), dayOfYear)
  }

  /** The date part of `toISOString()`: a four-digit year for years 0..9999, and a
      sign with six digits beyond, then `-MM-DD`. */
  function IsoDatePart(d: Date): (s: string)
    requires d.year >= 0 && d.month >= 0 && d.day >= 0
    ensures |s| >= 10
  {
    var yearText :=
      if d.year <= 9999 then PadStart(NatToString(d.year), 4, '0')
      else "+" + PadStart(NatToString(d.year), 6, '0');
    yearText + "-" + PadStart(NatToString(d.month), 2, '0') + "-" + PadStart(NatToString(d.day), 2, '0')
  }

  /** `date.toISOString().slice(0, 10).replace(/-/g, '')`. */
  function IsoDateKey(d: Date): string
    requires d.year >= 0 && d.month >= 0 && d.day >= 0
  {
    RemoveAll(IsoDatePart(d)[..10], '-')
  }

  /** A one- or two-digit number padded to two digits. */
  lemma TwoDigits(n: nat)
    requires 1 <= n <= 99
    ensures var t := PadStart(NatToString(n), 2, '0');
      |t| == 2 && AllDigits(t) && DigitsValue(t) == n
  {
    assert Pow10(1) == 10 && Pow10(2) == 100;
    if n < 10 {
      PaddedDigits(n, 1, 2);
    } else {
      PaddedDigits(n, 2, 2);
    }
  }

  /** A number below 10000 padded to four digits. */
  lemma FourDigits(n: nat)
    requires n <= 9999
    ensures var t := PadStart(NatToString(n), 4, '0');
      |t| == 4 && AllDigits(t) && DigitsValue(t) == n
  {
    assert Pow10(1) == 10 && Pow10(2) == 100 && Pow10(3) == 1000 && Pow10(4) == 10000;
    if n < 10 {
      PaddedDigits(n, 1, 4);
    } else if n < 100 {
      PaddedDigits(n, 2, 4);
    } else if n < 1000 {
      PaddedDigits(n, 3, 4);
    } else {
      PaddedDigits(n, 4, 4);
    }
  }

  /** A `k`-digit number padded with zeros to width `w >= k`. */
  lemma PaddedDigits(n: nat, k: nat, w: nat)
    requires 1 <= k <= w && n < Pow10(k) && (k == 1 || Pow10(k - 1) <= n)
    ensures var t := PadStart(NatToString(n), w, '0');
      |t| == w && AllDigits(t) && DigitsValue(t) == n
  {
    var s := NatToString(n);
    if k == 1 {
      assert n < 10;
      assert s == [DigitChar(n)];
    } else {
      NatToStringLength(n, k);
    }
    var zeros := Repeat('0', w - |s|);
    assert PadStart(s, w, '0') == zeros + s;
    ZerosWorthNothing(w - |s|);
    DigitsValueConcat(zeros, s);
  }

  lemma {:induction false} ZerosWorthNothing(k: nat)
    ensures AllDigits(Repeat('0', k)) && DigitsValue(Repeat('0', k)) == 0
  {
    if k > 0 {
      ZerosWorthNothing(k - 1);
      assert Repeat('0', k)[..k - 1] == Repeat('0', k - 1);
    }
  }

  /** For years 0..9999 the key is the year padded to four digits, then the month and
      the day each padded to two. */
  lemma IsoDateKeyPadded(d: Date)
    requires 0 <= d.year <= 9999 && 1 <= d.month <= 12 && 1 <= d.day <= 31
    ensures IsoDateKey(d) ==
      PadStart(NatToString(d.year), 4, '0') + PadStart(NatToString(d.month), 2, '0') + PadStart(NatToString(d.day), 2, '0')
  {
    var yy := PadStart(NatToString(d.year), 4, '0');
    var mm := PadStart(NatToString(d.month), 2, '0');
    var dd := PadStart(NatToString(d.day), 2, '0');
    FourDigits(d.year);
    TwoDigits(d.month);
    TwoDigits(d.day);
    ShortIsoDatePart(d, yy, mm, dd);
    DashesRemoved(yy, mm, dd);
  }

  /** For years 0..9999 the key is eight digits whose value is `YYYYMMDD`: year, month
      and day in that order. */
  lemma IsoDateKeyDigits(d: Date)
    requires 0 <= d.year <= 9999 && 1 <= d.month <= 12 && 1 <= d.day <= 31
    ensures var key := IsoDateKey(d);
      |key| == 8 && AllDigits(key) && DigitsValue(key) == d.year * 10000 + d.month * 100 + d.day
  {
    var yy := PadStart(NatToString(d.year), 4, '0');
    var mm := PadStart(NatToString(d.month), 2, '0');
    var dd := PadStart(NatToString(d.day), 2, '0');
    FourDigits(d.year);
    TwoDigits(d.month);
    TwoDigits(d.day);
    IsoDateKeyPadded(d);
    EightDigitValue(yy, mm, dd);
  }

  lemma ShortIsoDatePart(d: Date, yy: string, mm: string, dd: string)
    requires 0 <= d.year <= 9999 && 1 <= d.month <= 12 && 1 <= d.day <= 31
    requires yy == PadStart(NatToString(d.year), 4, '0') && |yy| == 4
    requires mm == PadStart(NatToString(d.month), 2, '0') && |mm| == 2
    requires dd == PadStart(NatToString(d.day), 2, '0') && |dd| == 2
    ensures IsoDatePart(d)[..10] == yy + "-" + mm + "-" + dd
  {
    var part := IsoDatePart(d);
    assert part == yy + "-" + mm + "-" + dd;
    assert |part| == 10;
  }

  lemma DashesRemoved(yy: string, mm: string, dd: string)
    requires AllDigits(yy) && AllDigits(mm) && AllDigits(dd)
    ensures RemoveAll(yy + "-" + mm + "-" + dd, '-') == yy + mm + dd
  {
    NoDash(yy);
    NoDash(mm);
    NoDash(dd);
    var first := yy + "-" + mm;
    RemoveAllAround(yy, mm, '-');
    assert yy + "-" + mm + "-" + dd == first + "-" + dd;
    RemoveAllAround(first, dd, '-');
  }

  lemma EightDigitValue(yy: string, mm: string, dd: string)
    requires AllDigits(yy) && AllDigits(mm) && AllDigits(dd) && |yy| == 4 && |mm| == 2 && |dd| == 2
    ensures AllDigits(yy + mm + dd) && |yy + mm + dd| == 8
    ensures DigitsValue(yy + mm + dd) == DigitsValue(yy) * 10000 + DigitsValue(mm) * 100 + DigitsValue(dd)
  {
    DigitsValueConcat(yy, mm);
    DigitsValueConcat(yy + mm, dd);
    assert Pow10(2) == 100;
  }

  lemma NoDash(s: string)
    requires AllDigits(s)
    ensures RemoveAll(s, '-') == s
  {
    assert forall i :: 0 <= i < |s| ==> s[i] != '-';
  }
}
