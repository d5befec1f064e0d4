/**
 * The UTC decomposition of a time value defined for Date objects in section
 * 21.4.1 of ECMA-262: a time value is a whole number of milliseconds since
 * 1970-01-01T00:00:00Z, and `getUTCDay`, `getUTCMonth`, `getUTCDate` and
 * `getUTCFullYear` read its week day, month, day of month and year.
 *
 * The standard's `floor` and `modulo` on these quantities have positive
 * divisors, where Dafny's Euclidean `/` and `%` agree with them.
 */
module Calendar {

  /*
   * msPerDay is 86400000 and a time value lies within 8.64e15 ms of the
   * epoch either way (section 21.4.1.1 of ECMA-262). Both are written out
   * as literals in the arithmetic below: a named constant would make every
   * product and quotient non-linear for the solver.
   */

  /** `TimeClip` accepts the value (in the standard it would otherwise become NaN). */
  predicate IsValidTime(t: int) {
    -8640000000000000 <= t <= 8640000000000000
  }

  /** Day(t): the number of the day that contains `t`. */
  function Day(t: int): int {
    t / 86400000
  }

  /** The week day of day number `d`: 0 for Sunday through 6 for Saturday; day 0 was a Thursday. */
  function WeekDayOfDay(d: int): (w: int)
    ensures 0 <= w < 7
  {
    (d + 4) % 7
  }

  /** WeekDay(t). */
  function WeekDay(t: int): (w: int)
    ensures 0 <= w < 7
  {
    WeekDayOfDay(Day(t))
  }

  /** 1 in a leap year of the proleptic Gregorian calendar, 0 otherwise. */
  function Leap(y: int): (l: int)
    ensures l == 0 || l == 1
  {
    if y % 4 != 0 then 0
    else if y % 100 != 0 then 1
    else if y % 400 != 0 then 0
    else 1
  }

  function DaysInYear(y: int): int {
    365 + Leap(y)
  }

  /**
   * DayFromYear(y): the number of the first day of year `y`, counted from
   * 1970 one year length at a time; `DayFromYearClosedForm` shows it is the
   * standard's formula.
   */
  function DayFromYear(y: int): int
    decreases if y >= 1970 then y - 1970 else 1970 - y
  {
    if y == 1970 then 0
    else if y > 1970 then DayFromYear(y - 1) + DaysInYear(y - 1)
    else DayFromYear(y + 1) - DaysInYear(y)
  }

  /** Consecutive years start `DaysInYear` days apart. */
  lemma DayFromYearStep(y: int)
    ensures DayFromYear(y + 1) == DayFromYear(y) + DaysInYear(y)
  {
  }

  /** The closed form of DayFromYear given in section 21.4.1 of ECMA-262. */
  function DayFromYearFormula(y: int): int {
    365 * (y - 1970) + (y - 1969) / 4 - (y - 1901) / 100 + (y - 1601) / 400
  }

  /** The recursive count agrees with the standard's closed form. */
  lemma {:induction false} DayFromYearClosedForm(y: int)
    ensures DayFromYear(y) == DayFromYearFormula(y)
    decreases if y >= 1970 then y - 1970 else 1970 - y
  {
    if y > 1970 {
      DayFromYearClosedForm(y - 1);
      FormulaStep(y - 1);
    } else if y < 1970 {
      DayFromYearClosedForm(y + 1);
      FormulaStep(y);
    }
  }

  /** The closed form also advances by the length of each year. */
  lemma FormulaStep(y: int)
    ensures DayFromYearFormula(y + 1) == DayFromYearFormula(y) + DaysInYear(y)
  {
    FloorStep4(y);
    FloorStep100(y);
    FloorStep400(y);
    LeapAsCounts(y);
  }

  /** The leap flag as the three divisibility counts combine it. */
  lemma LeapAsCounts(y: int)
    ensures Leap(y) == (if y % 4 == 0 then 1 else 0) - (if y % 100 == 0 then 1 else 0)
                       + (if y % 400 == 0 then 1 else 0)
  {
    if y % 100 == 0 {
      var q := y / 100;
      assert y == 4 * (25 * q);
    }
    if y % 400 == 0 {
      var q := y / 400;
      assert y == 100 * (4 * q);
    }
  }

  /** The count of years divisible by 4 gains one exactly at multiples of 4. */
  lemma FloorStep4(y: int)
    ensures (y - 1968) / 4 == (y - 1969) / 4 + (if y % 4 == 0 then 1 else 0)
  {
    var q := (y - 1969) / 4;
    var r := (y - 1969) % 4;
    assert y == 4 * q + r + 1969;
    if r == 3 {
      assert y - 1968 == 4 * (q + 1);
      assert y == 4 * (q + 493);
    } else {
      assert y - 1968 == 4 * q + (r + 1);
      assert y == 4 * (q + 492) + (r + 1);
    }
  }

  /** The count of years divisible by 100 gains one exactly at multiples of 100. */
  lemma FloorStep100(y: int)
    ensures (y - 1900) / 100 == (y - 1901) / 100 + (if y % 100 == 0 then 1 else 0)
  {
    var q := (y - 1901) / 100;
    var r := (y - 1901) % 100;
    assert y == 100 * q + r + 1901;
    if r == 99 {
      assert y - 1900 == 100 * (q + 1);
      assert y == 100 * (q + 20);
    } else {
      assert y - 1900 == 100 * q + (r + 1);
      assert y == 100 * (q + 19) + (r + 1);
    }
  }

  /** The count of years divisible by 400 gains one exactly at multiples of 400. */
  lemma FloorStep400(y: int)
    ensures (y - 1600) / 400 == (y - 1601) / 400 + (if y % 400 == 0 then 1 else 0)
  {
    var q := (y - 1601) / 400;
    var r := (y - 1601) % 400;
    assert y == 400 * q + r + 1601;
    if r == 399 {
      assert y - 1600 == 400 * (q + 1);
      assert y == 400 * (q + 5);
    } else {
      assert y - 1600 == 400 * q + (r + 1);
      assert y == 400 * (q + 4) + (r + 1);
    }
  }

  /** DayFromYear grows by at least 365 a year. */
  lemma {:induction false} DayFromYearMonotone(a: int, b: int)
    requires a <= b
    ensures DayFromYear(b) - DayFromYear(a) >= 365 * (b - a)
    decreases b - a
  {
    if a < b {
      DayFromYearMonotone(a, b - 1);
      DayFromYearStep(b - 1);
    }
  }

  /** The year of day `d`, searching upward from year `y`. */
  function YearUp(d: int, y: int): (r: int)
    requires DayFromYear(y) <= d
    ensures DayFromYear(r) <= d < DayFromYear(r + 1)
    decreases d - DayFromYear(y)
  {
    DayFromYearStep(y);
    if DayFromYear(y + 1) <= d then YearUp(d, y + 1) else y
  }

  /** The year of day `d`, searching downward from year `y`. */
  function YearDown(d: int, y: int): (r: int)
    requires d < DayFromYear(y + 1)
    ensures DayFromYear(r) <= d < DayFromYear(r + 1)
    decreases DayFromYear(y) - d
  {
    DayFromYearStep(y - 1);
    if DayFromYear(y) <= d then y else YearDown(d, y - 1)
  }

  /** YearFromTime, by days: the year whose first day is the last one not after `d`. */
  function YearFromDay(d: int): (y: int)
    ensures DayFromYear(y) <= d < DayFromYear(y + 1)
  {
    if d >= 0 then YearUp(d, 1970) else YearDown(d, 1969)
  }

  /** A day belongs to exactly one year. */
  lemma YearOfDayUnique(d: int, y: int)
    requires DayFromYear(y) <= d < DayFromYear(y + 1)
    ensures YearFromDay(d) == y
  {
    var z := YearFromDay(d);
    if z < y {
      DayFromYearMonotone(z + 1, y);
    } else if y < z {
      DayFromYearMonotone(y + 1, z);
    }
  }

  /** Days in month `m` (0 for January) of a year with leap flag `leap`. */
  function DaysInMonth(m: int, leap: int): int
    requires 0 <= m < 12
  {
    if m == 1 then 28 + leap
    else if m == 3 || m == 5 || m == 8 || m == 10 then 30
    else 31
  }

  /** The day within the year on which month `m` starts (`MonthStart(12, l)` is the year's length). */
  function MonthStart(m: int, leap: int): int
    requires 0 <= m <= 12
  {
    if m == 0 then 0
    else if m == 1 then 31
    else [59, 90, 120, 151, 181, 212, 243, 273, 304, 334, 365][m - 2] + leap
  }

  /** The table of month starts accumulates the month lengths and closes at the year length. */
  lemma MonthStartStep(m: int, leap: int)
    requires 0 <= m < 12
    ensures MonthStart(m + 1, leap) == MonthStart(m, leap) + DaysInMonth(m, leap)
    ensures MonthStart(12, leap) == 365 + leap
  {
  }

  lemma {:induction false} MonthStartMonotone(a: int, b: int, leap: int)
    requires 0 <= a <= b <= 12
    requires leap == 0 || leap == 1
    ensures MonthStart(a, leap) + (b - a) * 28 <= MonthStart(b, leap)
    decreases b - a
  {
    if a < b {
      MonthStartMonotone(a, b - 1, leap);
      MonthStartStep(b - 1, leap);
    }
  }

  /** MonthFromTime, by day within the year: the month whose range holds `dwy`. */
  function MonthOfDayInYear(dwy: int, leap: int, m: int): (r: int)
    requires 0 <= m < 12
    requires leap == 0 || leap == 1
    requires MonthStart(m, leap) <= dwy < 365 + leap
    ensures m <= r < 12
    ensures MonthStart(r, leap) <= dwy < MonthStart(r + 1, leap)
    decreases 12 - m
  {
    if m == 11 || dwy < MonthStart(m + 1, leap) then m
    else MonthOfDayInYear(dwy, leap, m + 1)
  }

  /** A calendar date: year, month counted from 0 as `getUTCMonth` does, day of month from 1. */
  datatype CivilDate = CivilDate(year: int, month: int, date: int)

  predicate ValidDate(c: CivilDate) {
    && 0 <= c.month < 12
    && 1 <= c.date <= DaysInMonth(c.month, Leap(c.year))
  }

  /** The number of the day a valid calendar date names. */
  function DaysFromCivil(c: CivilDate): int
    requires ValidDate(c)
  {
    DayFromYear(c.year) + MonthStart(c.month, Leap(c.year)) + c.date - 1
  }

  /**
   * YearFromTime, MonthFromTime and DateFromTime of day `d`: the one valid
   * calendar date that names day `d`.
   */
  function CivilFromDays(d: int): (c: CivilDate)
    ensures ValidDate(c)
    ensures DaysFromCivil(c) == d
  {
    var y := YearFromDay(d);
    var leap := Leap(y);
    DayFromYearStep(y);
    var dwy := d - DayFromYear(y);
    var m := MonthOfDayInYear(dwy, leap, 0);
    MonthStartStep(m, leap);
    CivilDate(y, m, dwy - MonthStart(m, leap) + 1)
  }

  /** Decomposing the day a valid date names gives back that date. */
  lemma CivilRoundTrip(c: CivilDate)
    requires ValidDate(c)
    ensures CivilFromDays(DaysFromCivil(c)) == c
  {
    var d := DaysFromCivil(c);
    var leap := Leap(c.year);
    MonthStartStep(c.month, leap);
    MonthStartMonotone(c.month + 1, 12, leap);
    DayFromYearStep(c.year);
    YearOfDayUnique(d, c.year);
    var r := CivilFromDays(d);
    assert r.year == c.year;
    if r.month < c.month {
      MonthStartMonotone(r.month + 1, c.month, leap);
    } else if c.month < r.month {
      MonthStartMonotone(c.month + 1, r.month, leap);
    }
  }

  /** Two valid dates that name the same day are the same date. */
  lemma DaysFromCivilInjective(a: CivilDate, b: CivilDate)
    requires ValidDate(a) && ValidDate(b)
    requires DaysFromCivil(a) == DaysFromCivil(b)
    ensures a == b
  {
    CivilRoundTrip(a);
    CivilRoundTrip(b);
  }
}
