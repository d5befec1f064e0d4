/**
 * `formatDate` from utils/helper.ts: a time value rendered as
 * `Www, Mmm D, YYYY` from its UTC week day, month, day of month and year.
 * The function takes nothing but the time value, so the host's time zone
 * cannot enter the result.
 */
module DateFormat {
  import opened Text
  import opened Calendar

  const DaysOfWeek: seq<string> := ["Sun", "Mon", "Tue", "Wed", "Thu", "Fri", "Sat"]

  const Months: seq<string> :=
    ["Jan", "Feb", "Mar", "Apr", "May", "Jun", "Jul", "Aug", "Sep", "Oct", "Nov", "Dec"]

  /**
   * What the template literal makes of an Invalid Date: the table lookups
   * at `NaN` give `undefined`, and the day and the year print as `NaN`.
   */
  const InvalidDateText: string := "undefined, undefined NaN, NaN"

  /** The template `${dayOfWeek}, ${month} ${day}, ${year}`. */
  function Render(dayOfWeek: string, month: string, day: int, year: int): string {
    dayOfWeek + (", " + (month + (" " + (IntToString(day) + (", " + IntToString(year))))))
  }

  /** The date `formatDate` renders: the calendar date of the UTC day holding the instant. */
  function UtcDate(timestamp: int): CivilDate {
    CivilFromDays(Day(timestamp))
  }

  function FormatDate(timestamp: int): string {
    if !IsValidTime(timestamp) then InvalidDateText
    else
      var c := UtcDate(timestamp);
      Render(DaysOfWeek[WeekDay(timestamp)], Months[c.month], c.date, c.year)
  }

  /** The time value of millisecond `ms` of calendar date `c`, UTC. */
  function TimeOfDate(c: CivilDate, ms: int): int
    requires ValidDate(c)
  {
    DaysFromCivil(c) * 86400000 + ms
  }

  /**
   * Any instant of a calendar date renders as that date: its own month name,
   * day of month and year, with the week day of that day.
   */
  lemma FormatDateOfDate(c: CivilDate, ms: int)
    requires ValidDate(c)
    requires 0 <= ms < 86400000
    requires IsValidTime(TimeOfDate(c, ms))
    ensures Day(TimeOfDate(c, ms)) == DaysFromCivil(c)
    ensures FormatDate(TimeOfDate(c, ms))
         == Render(DaysOfWeek[WeekDayOfDay(DaysFromCivil(c))], Months[c.month], c.date, c.year)
  {
    var t := TimeOfDate(c, ms);
    DayOfTime(DaysFromCivil(c), ms);
    FormatDateOfDay(c, t);
  }

  /** An instant whose UTC day is the day a valid date names renders as that date. */
  lemma FormatDateOfDay(c: CivilDate, t: int)
    requires ValidDate(c)
    requires IsValidTime(t)
    requires Day(t) == DaysFromCivil(c)
    ensures FormatDate(t) == Render(DaysOfWeek[WeekDay(t)], Months[c.month], c.date, c.year)
  {
    UtcDateOfDay(c, t);
    FormatDateUnfold(t);
  }

  /** Millisecond `ms` of day `d` lies in day `d`. */
  lemma DayOfTime(d: int, ms: int)
    requires 0 <= ms < 86400000
    ensures Day(d * 86400000 + ms) == d
  {
  }

  /** An instant of the day a valid date names has that date as its UTC date. */
  lemma UtcDateOfDay(c: CivilDate, t: int)
    requires ValidDate(c)
    requires Day(t) == DaysFromCivil(c)
    ensures UtcDate(t) == c
  {
    CivilRoundTrip(c);
  }

  lemma FormatDateUnfold(t: int)
    requires IsValidTime(t)
    ensures FormatDate(t)
         == Render(DaysOfWeek[WeekDay(t)], Months[UtcDate(t).month], UtcDate(t).date, UtcDate(t).year)
  {
  }

  /** Two instants of the same UTC day render the same way. */
  lemma FormatDateOnlyDependsOnDay(t1: int, t2: int)
    requires IsValidTime(t1) && IsValidTime(t2)
    requires Day(t1) == Day(t2)
    ensures FormatDate(t1) == FormatDate(t2)
  {
    assert WeekDay(t1) == WeekDay(t2);
    assert UtcDate(t1) == UtcDate(t2);
  }

  /** Instants of different UTC days render differently. */
  lemma FormatDateSeparatesDays(t1: int, t2: int)
    requires IsValidTime(t1) && IsValidTime(t2)
    requires Day(t1) != Day(t2)
    ensures FormatDate(t1) != FormatDate(t2)
  {
    var c1 := UtcDate(t1);
    var c2 := UtcDate(t2);
    FormatDateUnfold(t1);
    FormatDateUnfold(t2);
    NamesAreThreeLetters();
    var w1, w2 := DaysOfWeek[WeekDay(t1)], DaysOfWeek[WeekDay(t2)];
    var m1, m2 := Months[c1.month], Months[c2.month];
    assert |w1| == |w2| && |m1| == |m2|;
    if FormatDate(t1) == FormatDate(t2) {
      RenderInjective(w1, m1, c1.date, c1.year, w2, m2, c2.date, c2.year);
      MonthNamesDistinct(c1.month, c2.month);
      assert false;
    }
  }

  /** Reading a rendered date back: the pieces of `Render` are recoverable. */
  lemma RenderInjective(w1: string, m1: string, d1: int, y1: int,
                        w2: string, m2: string, d2: int, y2: int)
    requires |w1| == |w2| && |m1| == |m2|
    requires Render(w1, m1, d1, y1) == Render(w2, m2, d2, y2)
    ensures w1 == w2 && m1 == m2 && d1 == d2 && y1 == y2
  {
    var rest1 := IntToString(d1) + (", " + IntToString(y1));
    var rest2 := IntToString(d2) + (", " + IntToString(y2));
    SplitAt(w1, ", " + (m1 + (" " + rest1)), w2, ", " + (m2 + (" " + rest2)));
    SplitAt(", ", m1 + (" " + rest1), ", ", m2 + (" " + rest2));
    SplitAt(m1, " " + rest1, m2, " " + rest2);
    SplitAt(" ", rest1, " ", rest2);
    NoCommaInDecimal(d1);
    NoCommaInDecimal(d2);
    SplitAtComma(IntToString(d1), IntToString(y1), IntToString(d2), IntToString(y2));
    IntToStringInjective(d1, d2);
    IntToStringInjective(y1, y2);
  }

  /** Equal concatenations with equally long first parts have equal parts. */
  lemma SplitAt(a1: string, b1: string, a2: string, b2: string)
    requires |a1| == |a2|
    requires a1 + b1 == a2 + b2
    ensures a1 == a2 && b1 == b2
  {
    assert a1 == (a1 + b1)[..|a1|];
    assert b1 == (a1 + b1)[|a1|..];
  }

  predicate NoComma(s: string) {
    forall i :: 0 <= i < |s| ==> s[i] != ','
  }

  lemma NoCommaInDecimal(n: int)
    ensures NoComma(IntToString(n))
  {
  }

  /** A comma-free first part ends at the first comma. */
  lemma SplitAtComma(a1: string, b1: string, a2: string, b2: string)
    requires NoComma(a1) && NoComma(a2)
    requires a1 + (", " + b1) == a2 + (", " + b2)
    ensures a1 == a2 && b1 == b2
  {
    if |a1| < |a2| {
      CommaAfter(a1, b1, a2, b2);
      assert false;
    } else if |a2| < |a1| {
      CommaAfter(a2, b2, a1, b1);
      assert false;
    }
    SplitAt(a1, ", " + b1, a2, ", " + b2);
    SplitAt(", ", b1, ", ", b2);
  }

  lemma NamesAreThreeLetters()
    ensures forall i :: 0 <= i < |DaysOfWeek| ==> |DaysOfWeek[i]| == 3
    ensures forall i :: 0 <= i < |Months| ==> |Months[i]| == 3
  {
  }

  lemma MonthNamesDistinct(i: int, j: int)
    requires 0 <= i < 12 && 0 <= j < 12
    requires Months[i] == Months[j]
    ensures i == j
  {
  }

  /** Where the shorter first part ends, the longer one holds the comma that follows it. */
  lemma CommaAfter(a1: string, b1: string, a2: string, b2: string)
    requires a1 + (", " + b1) == a2 + (", " + b2)
    requires |a1| < |a2|
    ensures a2[|a1|] == ','
  {
    assert (a1 + (", " + b1))[|a1|] == ',';
  }

  /** Day 0 of the epoch was a Thursday. */
  lemma EpochIsThursday()
    ensures DaysOfWeek[WeekDay(0)] == "Thu"
  {
  }

  /** Every instant outside the range of time values renders as the Invalid Date text. */
  lemma FormatOutOfRange(t: int)
    requires !IsValidTime(t)
    ensures FormatDate(t) == InvalidDateText
  {
  }
}
