/** Python's datetime.date in the proleptic Gregorian calendar: validity, the day ordinal
    (toordinal), successor days, weekday() and str(). */
module Calendar {
  import opened Text

  datatype Date = Date(year: int, month: int, day: int)

  const MinYear: int := 1
  const MaxYear: int := 9999
  /** date.max, 9999-12-31, and its ordinal. */
  const LastDate: Date := Date(9999, 12, 31)
  const MaxOrdinal: int := 3652059

  predicate IsLeap(y: int)
  {
    y % 4 == 0 && (y % 100 != 0 || y % 400 == 0)
  }

  function DaysInYear(y: int): int
  {
    if IsLeap(y) then 366 else 365
  }

  function DaysInMonth(y: int, m: int): (n: int)
    requires 1 <= m <= 12
    ensures 28 <= n <= 31
  {
    if m == 2 then (if IsLeap(y) then 29 else 28)
    else if m == 4 || m == 6 || m == 9 || m == 11 then 30
    else 31
  }

  /** The combinations datetime.date(year, month, day) accepts; the others raise ValueError. */
  predicate Valid(d: Date)
  {
    MinYear <= d.year <= MaxYear && 1 <= d.month <= 12 && 1 <= d.day <= DaysInMonth(d.year, d.month)
  }

  /** The days of the years before y (0001-01-01 is day 1 of year 1). */
  function DaysBeforeYear(y: int): nat
    requires y >= 1
    decreases y
  {
    if y == 1 then 0 else DaysBeforeYear(y - 1) + DaysInYear(y - 1)
  }

  /** The days of the months before m in year y. */
  function DaysBeforeMonth(y: int, m: int): nat
    requires 1 <= m <= 13
    decreases m
  {
    if m == 1 then 0 else DaysBeforeMonth(y, m - 1) + DaysInMonth(y, m - 1)
  }

  /** date.toordinal(): 0001-01-01 is day 1. */
  function Ordinal(d: Date): int
    requires Valid(d)
  {
    DaysBeforeYear(d.year) + DaysBeforeMonth(d.year, d.month) + d.day
  }

  lemma DivStep(p: int, k: int)
    requires p >= 0 && (k == 4 || k == 100 || k == 400)
    ensures (p + 1) / k == p / k + (if (p + 1) % k == 0 then 1 else 0)
  {
    var q, r := p / k, p % k;
    assert p == k * q + r && 0 <= r < k;
    if r == k - 1 {
      assert p + 1 == k * (q + 1);
    } else {
      assert p + 1 == k * q + (r + 1);
    }
  }

  lemma Divisibility(x: int)
    requires x >= 0
    ensures x % 400 == 0 ==> x % 100 == 0
    ensures x % 100 == 0 ==> x % 4 == 0
  {
    var q4, r4 := x / 4, x % 4;
    var q100, r100 := x / 100, x % 100;
    var q400, r400 := x / 400, x % 400;
    assert x == 4 * q4 + r4 && 0 <= r4 < 4;
    assert x == 100 * q100 + r100 && 0 <= r100 < 100;
    assert x == 400 * q400 + r400 && 0 <= r400 < 400;
    if r400 == 0 {
      assert 100 * (4 * q400 - q100) == r100;
    }
    if r100 == 0 {
      assert 4 * (25 * q100 - q4) == r4;
    }
  }

  /** The leap days before a year: one every four years, less the centuries, plus every fourth
      century. */
  lemma LeapStep(p: int)
    requires p >= 0
    ensures (p + 1) / 4 - (p + 1) / 100 + (p + 1) / 400 ==
      p / 4 - p / 100 + p / 400 + (if IsLeap(p + 1) then 1 else 0)
  {
    DivStep(p, 4);
    DivStep(p, 100);
    DivStep(p, 400);
    Divisibility(p + 1);
  }

  /** The closed form of the days before a year: 365 a year plus one for each leap year. */
  lemma {:induction false} DaysBeforeYearClosed(y: int)
    requires y >= 1
    ensures var p := y - 1; DaysBeforeYear(y) == 365 * p + p / 4 - p / 100 + p / 400
    decreases y
  {
    if y > 1 {
      DaysBeforeYearClosed(y - 1);
      LeapStep(y - 2);
      assert DaysBeforeYear(y) == DaysBeforeYear(y - 1) + DaysInYear(y - 1);
    }
  }

  /** The months of a year add up to the year. */
  lemma MonthsFillYear(y: int)
    ensures DaysBeforeMonth(y, 13) == DaysInYear(y)
  {
    assert DaysBeforeMonth(y, 3) == 59 + (if IsLeap(y) then 1 else 0);
    assert DaysBeforeMonth(y, 6) == DaysBeforeMonth(y, 3) + 92;
    assert DaysBeforeMonth(y, 9) == DaysBeforeMonth(y, 6) + 92;
    assert DaysBeforeMonth(y, 11) == DaysBeforeMonth(y, 9) + 61;
    assert DaysBeforeMonth(y, 13) == DaysBeforeMonth(y, 11) + 61;
  }

  lemma {:induction false} MonthsBefore(y: int, a: int, b: int)
    requires 1 <= a < b <= 13
    ensures DaysBeforeMonth(y, a) + DaysInMonth(y, a) <= DaysBeforeMonth(y, b)
    decreases b - a
  {
    if a + 1 < b {
      MonthsBefore(y, a + 1, b);
    }
  }

  lemma {:induction false} YearsBefore(a: int, b: int)
    requires 1 <= a < b
    ensures DaysBeforeYear(a) + DaysInYear(a) <= DaysBeforeYear(b)
    decreases b - a
  {
    if a + 1 < b {
      YearsBefore(a + 1, b);
    }
  }

  lemma OrdinalWithinYear(d: Date)
    requires Valid(d)
    ensures DaysBeforeYear(d.year) < Ordinal(d) <= DaysBeforeYear(d.year) + DaysInYear(d.year)
  {
    MonthsFillYear(d.year);
    if d.month < 12 {
      MonthsBefore(d.year, d.month, 13);
    }
  }

  /** Python's comparison of dates: by year, then month, then day. */
  predicate Before(a: Date, b: Date)
  {
    a.year < b.year ||
    (a.year == b.year && (a.month < b.month || (a.month == b.month && a.day < b.day)))
  }

  lemma BeforeOrdinal(a: Date, b: Date)
    requires Valid(a) && Valid(b) && Before(a, b)
    ensures Ordinal(a) < Ordinal(b)
  {
    OrdinalWithinYear(a);
    OrdinalWithinYear(b);
    if a.year < b.year {
      YearsBefore(a.year, b.year);
    } else if a.month < b.month {
      MonthsBefore(a.year, a.month, b.month);
    }
  }

  /** Ordering dates by their ordinal is Python's ordering of dates. */
  lemma OrdinalOrder(a: Date, b: Date)
    requires Valid(a) && Valid(b)
    ensures Before(a, b) <==> Ordinal(a) < Ordinal(b)
  {
    if Before(a, b) {
      BeforeOrdinal(a, b);
    } else if a != b {
      assert Before(b, a);
      BeforeOrdinal(b, a);
    }
  }

  /** Distinct dates have distinct ordinals. */
  lemma OrdinalInjective(a: Date, b: Date)
    requires Valid(a) && Valid(b) && Ordinal(a) == Ordinal(b)
    ensures a == b
  {
    OrdinalOrder(a, b);
    OrdinalOrder(b, a);
  }

  /** Every valid date lies between 0001-01-01 and date.max. */
  lemma OrdinalRange(d: Date)
    requires Valid(d)
    ensures 1 <= Ordinal(d) <= MaxOrdinal
    ensures Ordinal(d) == MaxOrdinal <==> d == LastDate
  {
    LastOrdinal();
    OrdinalOrder(d, LastDate);
    OrdinalWithinYear(d);
  }

  /** date.max.toordinal() is 3652059. */
  lemma LastOrdinal()
    ensures Valid(LastDate) && Ordinal(LastDate) == MaxOrdinal
  {
    DaysBeforeYearClosed(9999);
    assert 9998 / 4 == 2499 && 9998 / 100 == 99 && 9998 / 400 == 24;
    assert DaysBeforeYear(9999) == 3651694;
    assert !IsLeap(9999);
    MonthsFillYear(9999);
    assert DaysBeforeMonth(9999, 13) == DaysBeforeMonth(9999, 12) + 31;
    assert DaysBeforeMonth(9999, 12) == 334;
  }

  /** The day after d (d + timedelta(days=1)). */
  function NextDay(d: Date): (r: Date)
    requires Valid(d) && d != LastDate
    ensures Valid(r) && Ordinal(r) == Ordinal(d) + 1
  {
    if d.day < DaysInMonth(d.year, d.month) then Date(d.year, d.month, d.day + 1)
    else if d.month < 12 then
      NextMonthStart(d);
      Date(d.year, d.month + 1, 1)
    else
      NextYearStart(d);
      Date(d.year + 1, 1, 1)
  }

  /** The day after the last day of a month other than December is the 1st of the next month. */
  lemma NextMonthStart(d: Date)
    requires Valid(d) && d.day == DaysInMonth(d.year, d.month) && d.month < 12
    ensures Valid(Date(d.year, d.month + 1, 1))
    ensures Ordinal(Date(d.year, d.month + 1, 1)) == Ordinal(d) + 1
  {
    assert DaysBeforeMonth(d.year, d.month + 1) == DaysBeforeMonth(d.year, d.month) + d.day;
  }

  /** The day after 31 December, before date.max, is 1 January of the next year. */
  lemma NextYearStart(d: Date)
    requires Valid(d) && d != LastDate && d.day == DaysInMonth(d.year, d.month) && d.month == 12
    ensures Valid(Date(d.year + 1, 1, 1))
    ensures Ordinal(Date(d.year + 1, 1, 1)) == Ordinal(d) + 1
  {
    assert d.year < MaxYear;
    MonthsFillYear(d.year);
    assert DaysBeforeMonth(d.year, 13) == DaysBeforeMonth(d.year, 12) + d.day;
    assert DaysBeforeYear(d.year + 1) == DaysBeforeYear(d.year) + DaysInYear(d.year);
  }

  /** d + timedelta(days=n), for a result no later than date.max. */
  function AddDays(d: Date, n: nat): (r: Date)
    requires Valid(d) && Ordinal(d) + n <= MaxOrdinal
    ensures Valid(r) && Ordinal(r) == Ordinal(d) + n
    decreases n
  {
    if n == 0 then d
    else
      OrdinalRange(d);
      AddDays(NextDay(d), n - 1)
  }

  /** date.weekday(): Monday is 0 and Sunday is 6. */
  function Weekday(d: Date): (w: int)
    requires Valid(d)
    ensures 0 <= w < 7
  {
    (Ordinal(d) + 6) % 7
  }

  /** The phase of the week: 0001-01-01, day 1 of the ordinal count, is a Monday. */
  lemma WeekdayPhase(d: Date)
    requires d == Date(1, 1, 1)
    ensures Valid(d) && Ordinal(d) == 1 && Weekday(d) == 0
  {
    FirstOrdinal(d);
    WeekdayOfOrdinalOne(d);
  }

  /** Ordinal day 1 falls on weekday 0. */
  lemma WeekdayOfOrdinalOne(d: Date)
    requires Valid(d) && Ordinal(d) == 1
    ensures Weekday(d) == 0
  {
    SevenModSeven(Ordinal(d) + 6);
  }

  /** Stated on a variable so that the solver does not unfold the calendar terms. */
  lemma SevenModSeven(x: int)
    requires x == 7
    ensures x % 7 == 0
  {
  }

  /** 0001-01-01 is a valid date and ordinal day 1. */
  lemma FirstOrdinal(d: Date)
    requires d == Date(1, 1, 1)
    ensures Valid(d) && Ordinal(d) == 1
  {
    assert DaysBeforeYear(d.year) == 0 && DaysBeforeMonth(d.year, d.month) == 0;
  }

  /** Consecutive days have consecutive weekdays. */
  lemma WeekdayOfNextDay(d: Date)
    requires Valid(d) && d != LastDate
    ensures Weekday(NextDay(d)) == (Weekday(d) + 1) % 7
  {
    var n := NextDay(d);
    assert Ordinal(n) + 6 == Ordinal(d) + 6 + 1;
    ModSucc(Ordinal(d) + 6);
  }

  lemma ModSucc(x: int)
    ensures (x + 1) % 7 == (x % 7 + 1) % 7
  {
    var q, r := x / 7, x % 7;
    assert x == 7 * q + r;
    if r == 6 {
      assert x + 1 == 7 * (q + 1);
    } else {
      assert x + 1 == 7 * q + (r + 1);
    }
  }

  /** str(date): "YYYY-MM-DD". */
  function IsoFormat(d: Date): string
    requires Valid(d)
  {
    PadNat(d.year, 4) + "-" + PadNat(d.month, 2) + "-" + PadNat(d.day, 2)
  }

  lemma FieldWidths(d: Date)
    requires Valid(d)
    ensures |PadNat(d.year, 4)| == 4 && |PadNat(d.month, 2)| == 2 && |PadNat(d.day, 2)| == 2
  {
    NatToStringLength(d.year, 4);
    NatToStringLength(d.month, 2);
    NatToStringLength(d.day, 2);
  }

  /** str(date) is ten characters, dashes at 4 and 7, and reading its digit groups back
      gives the year, month and day. */
  lemma IsoFormatParses(d: Date)
    requires Valid(d)
    ensures var s := IsoFormat(d);
      |s| == 10 && s[4] == '-' && s[7] == '-' &&
      AllDigits(s[..4]) && AllDigits(s[5..7]) && AllDigits(s[8..]) &&
      DigitsValue(s[..4]) == d.year && DigitsValue(s[5..7]) == d.month && DigitsValue(s[8..]) == d.day
  {
    FieldWidths(d);
    var s := IsoFormat(d);
    assert s[..4] == PadNat(d.year, 4);
    assert s[5..7] == PadNat(d.month, 2);
    assert s[8..] == PadNat(d.day, 2);
  }
}
