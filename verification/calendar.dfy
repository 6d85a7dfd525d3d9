/** The proleptic Gregorian calendar of Python's `datetime.date`: years 1 to 9999, day
    ordinals counted from 0001-01-01 = 1, and `weekday()` with Monday = 0 and Sunday = 6. */
module Calendar {
  import opened Wrappers

  const MinYear := 1
  const MaxYear := 9999
  const Sunday := 6

  predicate IsLeap(y: int)
  {
    y % 4 == 0 && (y % 100 != 0 || y % 400 == 0)
  }

  function DaysInYear(y: int): int
  {
    if IsLeap(y) then 366 else 365
  }

  function DaysInMonth(y: int, m: int): (r: int)
    requires 1 <= m <= 12
    ensures 28 <= r <= 31
  {
    if m == 2 then (if IsLeap(y) then 29 else 28)
    else if m == 4 || m == 6 || m == 9 || m == 11 then 30
    else 31
  }

  datatype Date = Date(year: int, month: int, day: int)
  {
    predicate Valid()
    {
      && MinYear <= year <= MaxYear
      && 1 <= month <= 12
      && 1 <= day <= DaysInMonth(year, month)
    }
  }

  /** Days in the years before `y`. */
  function DaysBeforeYear(y: int): int
    requires y >= 1
  {
    var p := y - 1;
    365 * p + p / 4 - p / 100 + p / 400
  }

  /** Days in the months of `y` before `m`. */
  function DaysBeforeMonth(y: int, m: int): (r: int)
    requires 1 <= m <= 12
    ensures 0 <= r <= 31 * (m - 1)
  {
    if m == 1 then 0 else DaysBeforeMonth(y, m - 1) + DaysInMonth(y, m - 1)
  }

  /** `toordinal()`. */
  function Ordinal(d: Date): int
    requires d.Valid()
  {
    DaysBeforeYear(d.year) + DaysBeforeMonth(d.year, d.month) + d.day
  }

  /** `weekday()`: 0001-01-01 was a Monday. */
  function Weekday(d: Date): (r: int)
    requires d.Valid()
    ensures 0 <= r < 7
  {
    (Ordinal(d) + 6) % 7
  }

  /** A year's months add up to the year's length. */
  lemma MonthsFillYear(y: int)
    ensures DaysBeforeMonth(y, 12) + DaysInMonth(y, 12) == DaysInYear(y)
  {
    var feb := DaysInMonth(y, 2);
    assert DaysBeforeMonth(y, 3) == 31 + feb;
    assert DaysBeforeMonth(y, 4) == 62 + feb;
    assert DaysBeforeMonth(y, 5) == 92 + feb;
    assert DaysBeforeMonth(y, 6) == 123 + feb;
    assert DaysBeforeMonth(y, 7) == 153 + feb;
    assert DaysBeforeMonth(y, 8) == 184 + feb;
    assert DaysBeforeMonth(y, 9) == 215 + feb;
    assert DaysBeforeMonth(y, 10) == 245 + feb;
    assert DaysBeforeMonth(y, 11) == 276 + feb;
    assert DaysBeforeMonth(y, 12) == 306 + feb;
  }

  /** A step of one day moves the weekday on by one, cyclically. */
  lemma WeekdayStep(o: int)
    ensures (o + 1 + 6) % 7 == ((o + 6) % 7 + 1) % 7
  {
    var q := (o + 6) / 7;
    var w := (o + 6) % 7;
    assert o + 6 == 7 * q + w;
    if w == 6 {
      assert o + 7 == 7 * (q + 1) + 0;
    } else {
      assert o + 7 == 7 * q + (w + 1);
    }
  }

  /** Consecutive years are as far apart as the earlier one is long. */
  lemma YearStep(y: int)
    requires y >= 1
    ensures DaysBeforeYear(y + 1) == DaysBeforeYear(y) + DaysInYear(y)
  {
    var p := y - 1;
    assert (p + 1) / 4 == p / 4 + (if y % 4 == 0 then 1 else 0);
    assert (p + 1) / 100 == p / 100 + (if y % 100 == 0 then 1 else 0);
    assert (p + 1) / 400 == p / 400 + (if y % 400 == 0 then 1 else 0);
  }

  /** `d + timedelta(days=1)`, or `None` where Python raises `OverflowError` (after
      9999-12-31). */
  function NextDay(d: Date): (r: Option<Date>)
    requires d.Valid()
    ensures r.Some? ==> r.value.Valid()
    ensures r.None? <==> d == Date(MaxYear, 12, 31)
  {
    if d.day < DaysInMonth(d.year, d.month) then Some(Date(d.year, d.month, d.day + 1))
    else if d.month < 12 then Some(Date(d.year, d.month + 1, 1))
    else if d.year < MaxYear then Some(Date(d.year + 1, 1, 1))
    else None
  }

  /** The next day's ordinal is one more. */
  lemma NextDayOrdinal(d: Date)
    requires d.Valid() && NextDay(d).Some?
    ensures Ordinal(NextDay(d).value) == Ordinal(d) + 1
  {
    if d.day == DaysInMonth(d.year, d.month) && d.month == 12 {
      MonthsFillYear(d.year);
      YearStep(d.year);
    }
  }

  /** The next day's weekday is one more, cyclically. */
  lemma NextDayWeekday(d: Date)
    requires d.Valid() && NextDay(d).Some?
    ensures Weekday(NextDay(d).value) == (Weekday(d) + 1) % 7
  {
    NextDayOrdinal(d);
    WeekdayStep(Ordinal(d));
  }

  /** `d + timedelta(days=n)` for `n >= 0`, one day at a time. */
  function AddDays(d: Date, n: nat): (r: Option<Date>)
    requires d.Valid()
    ensures r.Some? ==> r.value.Valid()
    decreases n
  {
    if n == 0 then Some(d)
    else match NextDay(d)
      case None => None
      case Some(e) => AddDays(e, n - 1)
  }

  /** Adding `n` days adds `n` to the ordinal. */
  lemma {:induction false} AddDaysOrdinal(d: Date, n: nat)
    requires d.Valid() && AddDays(d, n).Some?
    ensures Ordinal(AddDays(d, n).value) == Ordinal(d) + n
    decreases n
  {
    if n > 0 {
      var e := NextDay(d).value;
      NextDayOrdinal(d);
      AddDaysOrdinal(e, n - 1);
    }
  }

  /** The ordinal determines the date: different valid dates have different ordinals. */
  lemma OrdinalInjective(a: Date, b: Date)
    requires a.Valid() && b.Valid() && Ordinal(a) == Ordinal(b)
    ensures a == b
  {
    if a.year != b.year {
      if a.year < b.year {
        EarlierYearSmaller(a, b);
      } else {
        EarlierYearSmaller(b, a);
      }
    } else if a.month != b.month {
      if a.month < b.month {
        EarlierMonthSmaller(a, b);
      } else {
        EarlierMonthSmaller(b, a);
      }
    }
  }

  /** A date of an earlier year has a smaller ordinal. */
  lemma EarlierYearSmaller(lo: Date, hi: Date)
    requires lo.Valid() && hi.Valid() && lo.year < hi.year
    ensures Ordinal(lo) < Ordinal(hi)
  {
    YearBoundLower(hi);
    YearBoundUpper(lo);
    DaysBeforeYearMonotone(lo.year + 1, hi.year);
  }

  /** A date of an earlier month of the same year has a smaller ordinal. */
  lemma EarlierMonthSmaller(lo: Date, hi: Date)
    requires lo.Valid() && hi.Valid() && lo.year == hi.year && lo.month < hi.month
    ensures Ordinal(lo) < Ordinal(hi)
  {
    DaysBeforeMonthMonotone(lo.year, lo.month + 1, hi.month);
  }

  /** A date's ordinal is past every day of the years before it ... */
  lemma YearBoundLower(d: Date)
    requires d.Valid()
    ensures Ordinal(d) > DaysBeforeYear(d.year)
  {
  }

  /** ... and within its own year. */
  lemma YearBoundUpper(d: Date)
    requires d.Valid()
    ensures Ordinal(d) <= DaysBeforeYear(d.year + 1)
  {
    MonthsFillYear(d.year);
    YearStep(d.year);
    if d.month < 12 {
      DaysBeforeMonthMonotone(d.year, d.month + 1, 12);
    }
  }

  lemma {:induction false} DaysBeforeYearMonotone(a: int, b: int)
    requires 1 <= a <= b
    ensures DaysBeforeYear(a) <= DaysBeforeYear(b)
    decreases b - a
  {
    if a < b {
      YearStep(a);
      DaysBeforeYearMonotone(a + 1, b);
    }
  }

  lemma {:induction false} DaysBeforeMonthMonotone(y: int, a: int, b: int)
    requires 1 <= a <= b <= 12
    ensures DaysBeforeMonth(y, a) + (if a < b then DaysInMonth(y, a) else 0) <= DaysBeforeMonth(y, b)
    decreases b - a
  {
    if a < b {
      DaysBeforeMonthMonotone(y, a + 1, b);
    }
  }

  /** `last_sunday_of_month`: step back from the month's last day to a Sunday. `None` where
      Python raises (a month outside 1 to 12, a year outside 1 to 9999). */
  function LastSundayOfMonth(y: int, m: int): (r: Option<Date>)
    ensures r.None? <==> !(MinYear <= y <= MaxYear && 1 <= m <= 12)
    ensures r.Some? ==> r.value.Valid() && r.value.year == y && r.value.month == m
  {
    if !(MinYear <= y <= MaxYear && 1 <= m <= 12) then None
    else
      var last := Date(y, m, DaysInMonth(y, m));
      var back := (Weekday(last) + 1) % 7;
      Some(Date(y, m, last.day - back))
  }

  /** Stepping back `(w + 1) % 7` days from weekday `w` lands on a Sunday. */
  lemma StepBackToSunday(o: int)
    ensures var back := ((o + 6) % 7 + 1) % 7;
      0 <= back < 7 && (o - back + 6) % 7 == Sunday
  {
    var q := (o + 6) / 7;
    var w := (o + 6) % 7;
    assert o + 6 == 7 * q + w;
    if w == 6 {
      assert ((o + 6) % 7 + 1) % 7 == 0;
    } else {
      assert ((o + 6) % 7 + 1) % 7 == w + 1;
      assert o - (w + 1) + 6 == 7 * (q - 1) + 6;
    }
  }

  /** The six days after a Sunday are not Sundays. */
  lemma AfterSunday(o: int, j: int)
    requires (o + 6) % 7 == Sunday && 0 < j < 7
    ensures (o + j + 6) % 7 != Sunday
  {
    var q := (o + 6) / 7;
    assert o + 6 == 7 * q + 6;
    assert o + j + 6 == 7 * (q + 1) + (j - 1);
  }

  /** The next Sunday after a Sunday is at least a week later. */
  lemma SundayGap(o: int, j: int)
    requires (o + 6) % 7 == Sunday && j > 0
    ensures (o + j + 6) % 7 == Sunday ==> j >= 7
  {
    if j < 7 {
      AfterSunday(o, j);
    }
  }

  /** The result is a Sunday among the month's last seven days, and no later day of the
      month is a Sunday. */
  lemma LastSundayIsLast(y: int, m: int)
    requires MinYear <= y <= MaxYear && 1 <= m <= 12
    ensures var s := LastSundayOfMonth(y, m).value;
      && Weekday(s) == Sunday
      && DaysInMonth(y, m) - 6 <= s.day <= DaysInMonth(y, m)
      && forall k :: s.day < k <= DaysInMonth(y, m) ==> Weekday(Date(y, m, k)) != Sunday
  {
    var s := LastSundayOfMonth(y, m).value;
    LastSundayIsSunday(y, m);
    forall k | s.day < k <= DaysInMonth(y, m) ensures Weekday(Date(y, m, k)) != Sunday {
      NoSundayWithinWeek(s, Date(y, m, k));
    }
  }

  /** The result is a Sunday among the month's last seven days. */
  lemma LastSundayIsSunday(y: int, m: int)
    requires MinYear <= y <= MaxYear && 1 <= m <= 12
    ensures var s := LastSundayOfMonth(y, m).value;
      Weekday(s) == Sunday && DaysInMonth(y, m) - 6 <= s.day
  {
    var last := Date(y, m, DaysInMonth(y, m));
    var s := LastSundayOfMonth(y, m).value;
    var back := (Weekday(last) + 1) % 7;
    StepBackToSunday(Ordinal(last));
    assert Ordinal(s) == Ordinal(last) - back;
  }

  /** The six days after a Sunday within its month are not Sundays. */
  lemma NoSundayWithinWeek(s: Date, d: Date)
    requires s.Valid() && d.Valid() && s.year == d.year && s.month == d.month
    requires s.day < d.day < s.day + 7 && Weekday(s) == Sunday
    ensures Weekday(d) != Sunday
  {
    assert Ordinal(d) == Ordinal(s) + (d.day - s.day);
    AfterSunday(Ordinal(s), d.day - s.day);
  }
}
