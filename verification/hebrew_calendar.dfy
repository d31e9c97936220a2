/** Conversion of a Julian Day Number to a date of the fixed Hebrew calendar:
    estimate the year, walk back to the year whose new year is on or before
    the day, then walk the months from Tishrei. `FromHebrew` is the reverse
    conversion, used only to state what the forward one computes. */
module HebrewCalendar {
  import opened Wrappers
  import opened HebrewMolad
  import opened HebrewYearLength
  import Decimal
  import Words

  /** Julian Day Number of the day before 1 Tishrei of year 1. */
  const EpochOffset := 347997

  const Tishrei := 7
  const Cheshvan := 8
  const Kislev := 9
  const Adar := 12
  const AdarII := 13

  datatype HebrewDate = HebrewDate(year: int, month: int, day: int)

  /** `ArgumentError` raised for a month outside 1..13, or when the month
      walk runs past the end of the year. */
  datatype ConversionError = InvalidMonth(month: int) | CalculationError

  /** What the month lengths of a year depend on: whether it is a leap year
      and how many days it has. */
  datatype YearKind = YearKind(leap: bool, length: int)

  function KindOf(year: int): YearKind {
    YearKind(IsLeapYear(year), YearLength(year))
  }

  /** One of the six kinds of year the calendar allows. */
  predicate ValidKind(kind: YearKind) {
    if kind.leap then ValidLeapLength(kind.length) else ValidCommonLength(kind.length)
  }

  lemma KindOfValid(year: int)
    ensures ValidKind(KindOf(year))
  {
    YearLengthValid(year);
  }

  /** Days in `month` of a year of the given kind. Month 13 is given 29 days
      whatever the year; only a number outside 1..13 is an error. Cheshvan
      is long when the year has 355 or 385 days, Kislev short when it has
      353 or 383, Adar long in a leap year. */
  function MonthLengthIn(month: int, kind: YearKind): (r: Result<nat, ConversionError>)
    ensures r.Success? <==> 1 <= month <= 13
    ensures r.Failure? ==> r.error == InvalidMonth(month)
    ensures r.Success? ==> r.value == 29 || r.value == 30
    ensures month == 1 || month == 3 || month == 5 || month == 7 || month == 11 ==> r == Success(30)
    ensures month == 2 || month == 4 || month == 6 || month == 10 || month == 13 ==> r == Success(29)
    ensures month == Cheshvan ==> (r == Success(30) <==> kind.length % 10 == 5)
    ensures month == Kislev ==> (r == Success(29) <==> kind.length % 10 == 3)
    ensures month == Adar ==> (r == Success(30) <==> kind.leap)
  {
    if 1 <= month <= 13 then Success(MonthDays(kind, month)) else Failure(InvalidMonth(month))
  }

  /** In each of the six kinds of year, Cheshvan and Kislev have 29 and 29
      days in a deficient year (353 or 383 days), 29 and 30 in a regular one
      (354 or 384) and 30 and 30 in a complete one (355 or 385); Adar has 30
      days exactly in a leap year. */
  lemma CheshvanKislevByKind(kind: YearKind)
    requires ValidKind(kind)
    ensures kind.length % 10 == 3 ==> MonthDays(kind, Cheshvan) == 29 && MonthDays(kind, Kislev) == 29
    ensures kind.length % 10 == 4 ==> MonthDays(kind, Cheshvan) == 29 && MonthDays(kind, Kislev) == 30
    ensures kind.length % 10 == 5 ==> MonthDays(kind, Cheshvan) == 30 && MonthDays(kind, Kislev) == 30
    ensures MonthDays(kind, Adar) == if kind.leap then 30 else 29
    ensures kind.length % 10 == 3 || kind.length % 10 == 4 || kind.length % 10 == 5
  {
  }

  /** `calculate_month_length`. */
  function MonthLength(year: int, month: int): Result<nat, ConversionError> {
    MonthLengthIn(month, KindOf(year))
  }

  /** The month table: days in `month` of a year of the given kind, and none
      for a number that names no month. */
  function MonthDays(kind: YearKind, month: int): nat {
    if month == 1 || month == 3 || month == 5 || month == 7 || month == 11 then 30
    else if month == 2 || month == 4 || month == 6 || month == 10 || month == 13 then 29
    else if month == Cheshvan then (if kind.length % 10 == 5 then 30 else 29)
    else if month == Kislev then (if kind.length % 10 == 3 then 29 else 30)
    else if month == Adar then (if kind.leap then 30 else 29)
    else 0
  }

  /** `hebrew_months_list`: the months in calendar order from Tishrei, with
      Adar II (13) deleted from a common year. */
  function MonthsIn(leap: bool): seq<int> {
    if leap then [7, 8, 9, 10, 11, 12, 13, 1, 2, 3, 4, 5, 6]
    else [7, 8, 9, 10, 11, 12, 1, 2, 3, 4, 5, 6]
  }

  function MonthsOfYear(year: int): seq<int> {
    MonthsIn(IsLeapYear(year))
  }

  predicate ValidMonths(months: seq<int>) {
    forall i :: 0 <= i < |months| ==> 1 <= months[i] <= 13
  }

  predicate Distinct(months: seq<int>) {
    forall i, j :: 0 <= i < j < |months| ==> months[i] != months[j]
  }

  /** Months 1 to 12 belong to every year, Adar II only to a leap year. */
  predicate IsMonthOf(leap: bool, month: int) {
    1 <= month <= 12 || (month == AdarII && leap)
  }

  /** Where month `m` sits in the year that starts with Tishrei. */
  function Position(leap: bool, m: int): int {
    if m >= Tishrei then m - Tishrei else if leap then m + 6 else m + 5
  }

  /** The year runs Tishrei to Elul with each month once; 13 months in a
      leap year, 12 otherwise, and Adar II exactly in a leap year. */
  lemma MonthsInShape(leap: bool)
    ensures |MonthsIn(leap)| == (if leap then 13 else 12)
    ensures MonthsIn(leap)[0] == Tishrei
    ensures ValidMonths(MonthsIn(leap)) && Distinct(MonthsIn(leap))
    ensures AdarII in MonthsIn(leap) <==> leap
    ensures forall m :: m in MonthsIn(leap) <==> IsMonthOf(leap, m)
  {
    MonthsInValid(leap);
    MonthsInDistinct(leap);
    forall m | IsMonthOf(leap, m)
      ensures m in MonthsIn(leap)
    {
      MonthListed(leap, m);
    }
    forall m | m in MonthsIn(leap)
      ensures IsMonthOf(leap, m)
    {
      ListedMonth(leap, m);
    }
  }

  lemma MonthsInValid(leap: bool)
    ensures ValidMonths(MonthsIn(leap))
  {
  }

  /** Each month of the list sits at its position, so no month repeats. */
  lemma MonthsInDistinct(leap: bool)
    ensures Distinct(MonthsIn(leap))
  {
    var months := MonthsIn(leap);
    assert forall i :: 0 <= i < |months| ==> Position(leap, months[i]) == i;
  }

  /** Every month of the year is in its list. */
  lemma MonthListed(leap: bool, month: int)
    requires IsMonthOf(leap, month)
    ensures month in MonthsIn(leap)[0..]
  {
    var months := MonthsIn(leap);
    assert months[Position(leap, month)] == month;
    assert months[0..] == months;
  }

  /** Only months of the year are in its list. */
  lemma ListedMonth(leap: bool, month: int)
    requires month in MonthsIn(leap)
    ensures IsMonthOf(leap, month)
  {
    var months := MonthsIn(leap);
    var i :| 0 <= i < |months| && months[i] == month;
  }

  /** Days in the months of `months` from index `i` on. */
  function DaysFrom(kind: YearKind, months: seq<int>, i: nat): nat
    decreases |months| - i
  {
    if i >= |months| then 0 else MonthDays(kind, months[i]) + DaysFrom(kind, months, i + 1)
  }

  /** Days in the months from index `i` up to, not including, `month`. */
  function DaysBefore(kind: YearKind, months: seq<int>, i: nat, month: int): nat
    decreases |months| - i
  {
    if i >= |months| || months[i] == month then 0
    else MonthDays(kind, months[i]) + DaysBefore(kind, months, i + 1, month)
  }

  /** The months of a year add up to its length, for each of the six kinds of
      year: the length picks the lengths of Cheshvan and Kislev so that they
      make up the difference. */
  lemma MonthsFillYear(kind: YearKind)
    requires ValidKind(kind)
    ensures DaysFrom(kind, MonthsIn(kind.leap), 0) == kind.length
  {
    var months := MonthsIn(kind.leap);
    var cheshvan, kislev := MonthDays(kind, Cheshvan), MonthDays(kind, Kislev);
    // Tishrei 30, Cheshvan, Kislev, Tevet 29, Shevat 30, then Adar: 29 days
    // in a common year, 30 and Adar II's 29 more in a leap year.
    if kind.leap {
      LastMonthsDays(kind, months, 7);
      assert DaysFrom(kind, months, 6) == 206;
      assert DaysFrom(kind, months, 5) == 236;
    } else {
      LastMonthsDays(kind, months, 6);
      assert DaysFrom(kind, months, 5) == 206;
    }
    assert DaysFrom(kind, months, 4) == DaysFrom(kind, months, 5) + 30;
    assert DaysFrom(kind, months, 3) == DaysFrom(kind, months, 5) + 59;
    assert DaysFrom(kind, months, 2) == DaysFrom(kind, months, 5) + 59 + kislev;
    assert DaysFrom(kind, months, 1) == DaysFrom(kind, months, 5) + 59 + kislev + cheshvan;
  }

  /** Nisan to Elul, the last six months, alternate 30 and 29 days: 177 in all. */
  lemma LastMonthsDays(kind: YearKind, months: seq<int>, n: nat)
    requires |months| == n + 6 && months[n..] == [1, 2, 3, 4, 5, 6]
    ensures DaysFrom(kind, months, n) == 177
  {
    assert DaysFrom(kind, months, n + 6) == 0;
    assert DaysFrom(kind, months, n + 5) == 29;
    assert DaysFrom(kind, months, n + 4) == 59;
    assert DaysFrom(kind, months, n + 3) == 88;
    assert DaysFrom(kind, months, n + 2) == 118;
    assert DaysFrom(kind, months, n + 1) == 147;
  }

  /** `find_month_and_day` once the year is fixed: subtract whole months from
      the days left in the year, from index `i` on, until one is longer than
      what remains. */
  function WalkMonths(kind: YearKind, months: seq<int>, i: nat, remaining: int): Result<(int, int), ConversionError>
    decreases |months| - i
  {
    if i >= |months| then Failure(CalculationError)
    else
      var length :- MonthLengthIn(months[i], kind);
      if remaining >= length then WalkMonths(kind, months, i + 1, remaining - length)
      else Success((months[i], remaining + 1))
  }

  /** Within the year, the walk lands on the month and day that the day count
      denotes; past the end of the year it fails. */
  lemma {:induction false} WalkFinds(kind: YearKind, months: seq<int>, i: nat, remaining: int)
    requires ValidMonths(months) && Distinct(months)
    requires i <= |months| && 0 <= remaining
    ensures remaining < DaysFrom(kind, months, i) <==> WalkMonths(kind, months, i, remaining).Success?
    ensures remaining >= DaysFrom(kind, months, i) ==>
      WalkMonths(kind, months, i, remaining) == Failure(CalculationError)
    ensures WalkMonths(kind, months, i, remaining).Success? ==>
      var (month, day) := WalkMonths(kind, months, i, remaining).value;
      month in months[i..] && 1 <= day <= MonthDays(kind, month) &&
      remaining == DaysBefore(kind, months, i, month) + day - 1
    decreases |months| - i
  {
    if i < |months| {
      var length := MonthDays(kind, months[i]);
      if remaining >= length {
        WalkFinds(kind, months, i + 1, remaining - length);
        var r := WalkMonths(kind, months, i + 1, remaining - length);
        if r.Success? {
          var j :| i + 1 <= j < |months| && months[j] == r.value.0;
          assert months[i] != months[j];
        }
      }
    }
  }

  /** Walking to the day count of a month and day gives that month and day back. */
  lemma {:induction false} WalkInverts(kind: YearKind, months: seq<int>, i: nat, month: int, day: int)
    requires ValidMonths(months) && i <= |months| && month in months[i..]
    requires 1 <= day <= MonthDays(kind, month)
    ensures WalkMonths(kind, months, i, DaysBefore(kind, months, i, month) + day - 1) == Success((month, day))
    decreases |months| - i
  {
    if months[i] != month {
      assert month in months[i + 1..];
      WalkInverts(kind, months, i + 1, month, day);
    }
  }

  lemma {:induction false} DaysBeforeBound(kind: YearKind, months: seq<int>, i: nat, month: int)
    requires ValidMonths(months) && i <= |months| && month in months[i..] && 1 <= month <= 13
    ensures DaysBefore(kind, months, i, month) + MonthDays(kind, month) <= DaysFrom(kind, months, i)
    decreases |months| - i
  {
    if months[i] != month {
      assert month in months[i + 1..];
      DaysBeforeBound(kind, months, i + 1, month);
    }
  }

  /** `estimate_hebrew_year`: one year per 365 days, plus two. */
  function EstimateYear(daysSinceEpoch: int): int {
    daysSinceEpoch / 365 + 2
  }

  /** `find_exact_hebrew_year`: step back from the estimate while the year's
      new year comes after the day. The year found starts on or before the
      day, and every year skipped starts after it. */
  method FindExactYear(estimatedYear: int, daysSinceEpoch: int) returns (year: int)
    ensures year <= estimatedYear && ElapsedDays(year) <= daysSinceEpoch
    ensures forall y :: year < y <= estimatedYear ==> ElapsedDays(y) > daysSinceEpoch
  {
    year := estimatedYear;
    var firstDay := ElapsedDays(year);
    while firstDay > daysSinceEpoch
      invariant year <= estimatedYear && firstDay == ElapsedDays(year)
      invariant forall y :: year < y <= estimatedYear ==> ElapsedDays(y) > daysSinceEpoch
      decreases firstDay - daysSinceEpoch
    {
      ElapsedDaysGrows(year - 1);
      year := year - 1;
      firstDay := ElapsedDays(year);
    }
  }

  /** From the epoch on, the year after the estimate always starts after the
      day, so stepping back from the estimate cannot miss the right year. */
  lemma EstimateBound(daysSinceEpoch: int)
    requires daysSinceEpoch >= 0
    ensures ElapsedDays(EstimateYear(daysSinceEpoch) + 1) > daysSinceEpoch
  {
    var q := daysSinceEpoch / 365;
    var y := q + 3;
    var months := ElapsedMonths(y);
    var m := Conjunction(y);
    assert 19 * months > 235 * y - 234 - 19;
    assert m.day * 25920 > 31524 + 765433 * months - 25920;
    assert daysSinceEpoch < 365 * q + 365;
  }

  /** The date `remaining` days after 1 Tishrei of `year`, a year of the
      given kind, by the recursive month walk. */
  function DateInYear(year: int, kind: YearKind, remaining: int): Result<HebrewDate, ConversionError> {
    var found :- WalkMonths(kind, MonthsIn(kind.leap), 0, remaining);
    Success(HebrewDate(year, found.0, found.1))
  }

  /** Within a year of a valid kind every day count names a month of that
      year and a day within it. */
  lemma DateInYearFinds(year: int, kind: YearKind, remaining: int)
    requires ValidKind(kind) && 0 <= remaining < kind.length
    ensures DateInYear(year, kind, remaining).Success?
    ensures var date := DateInYear(year, kind, remaining).value;
      date.year == year && IsMonthOf(kind.leap, date.month) &&
      1 <= date.day <= MonthDays(kind, date.month) &&
      remaining == DaysBefore(kind, MonthsIn(kind.leap), 0, date.month) + date.day - 1
  {
    MonthsFillYear(kind);
    MonthsInValid(kind.leap);
    MonthsInDistinct(kind.leap);
    WalkFinds(kind, MonthsIn(kind.leap), 0, remaining);
    var date := DateInYear(year, kind, remaining).value;
    assert MonthsIn(kind.leap)[0..] == MonthsIn(kind.leap);
    ListedMonth(kind.leap, date.month);
  }

  lemma DateInYearInverts(year: int, kind: YearKind, month: int, day: int)
    requires IsMonthOf(kind.leap, month) && 1 <= day <= MonthDays(kind, month)
    ensures DateInYear(year, kind, DaysBefore(kind, MonthsIn(kind.leap), 0, month) + day - 1) ==
      Success(HebrewDate(year, month, day))
  {
    WalkFromTishrei(kind, month, day);
  }

  lemma WalkFromTishrei(kind: YearKind, month: int, day: int)
    requires IsMonthOf(kind.leap, month) && 1 <= day <= MonthDays(kind, month)
    ensures var months := MonthsIn(kind.leap);
      WalkMonths(kind, months, 0, DaysBefore(kind, months, 0, month) + day - 1) == Success((month, day))
  {
    MonthsInValid(kind.leap);
    MonthListed(kind.leap, month);
    WalkInverts(kind, MonthsIn(kind.leap), 0, month, day);
  }

  /** A valid month and day lie within the year. */
  lemma DayCountWithinYear(kind: YearKind, month: int, day: int)
    requires ValidKind(kind)
    requires IsMonthOf(kind.leap, month) && 1 <= day <= MonthDays(kind, month)
    ensures DaysBefore(kind, MonthsIn(kind.leap), 0, month) + day - 1 < kind.length
  {
    MonthsFillYear(kind);
    MonthListed(kind.leap, month);
    DaysBeforeBound(kind, MonthsIn(kind.leap), 0, month);
  }

  lemma DateInYearErrors(year: int, kind: YearKind, remaining: int)
    requires 0 <= remaining
    ensures DateInYear(year, kind, remaining).Failure? ==>
      DateInYear(year, kind, remaining).error == CalculationError
  {
    MonthsInValid(kind.leap);
    MonthsInDistinct(kind.leap);
    WalkFinds(kind, MonthsIn(kind.leap), 0, remaining);
  }

  /** `find_month_and_day`: the loop over the months of `year`, subtracting
      whole months until one is longer than the days that remain. It
      computes the recursive walk, and within the year's span it finds the
      date whose day count is the given one. */
  method FindMonthAndDay(year: int, daysSinceEpoch: int) returns (r: Result<HebrewDate, ConversionError>)
    ensures r == DateInYear(year, KindOf(year), daysSinceEpoch - ElapsedDays(year))
    ensures ElapsedDays(year) <= daysSinceEpoch < ElapsedDays(year + 1) ==>
      r.Success? && ValidDate(r.value) && DaysSinceEpoch(r.value) == daysSinceEpoch
  {
    var kind := KindOf(year);
    var months := MonthsOfYear(year);
    MonthsInValid(kind.leap);
    var start := daysSinceEpoch - ElapsedDays(year);
    var remaining := start;
    var i := 0;
    while i < |months|
      invariant 0 <= i <= |months|
      invariant WalkMonths(kind, months, i, remaining) == WalkMonths(kind, months, 0, start)
      decreases |months| - i
    {
      // Every month of the list is in 1..13, so `calculate_month_length`
      // cannot raise here.
      var monthDays := MonthDays(kind, months[i]);
      if remaining >= monthDays {
        remaining := remaining - monthDays;
      } else {
        r := Success(HebrewDate(year, months[i], remaining + 1));
        YearSpanFacts(year, daysSinceEpoch, r);
        return;
      }
      i := i + 1;
    }
    r := Failure(CalculationError);
    YearSpanFacts(year, daysSinceEpoch, r);
  }

  /** What the walk's result means when the day falls in the year's span. */
  lemma YearSpanFacts(year: int, daysSinceEpoch: int, r: Result<HebrewDate, ConversionError>)
    requires r == DateInYear(year, KindOf(year), daysSinceEpoch - ElapsedDays(year))
    ensures ElapsedDays(year) <= daysSinceEpoch < ElapsedDays(year + 1) ==>
      r.Success? && ValidDate(r.value) && DaysSinceEpoch(r.value) == daysSinceEpoch
  {
    if ElapsedDays(year) <= daysSinceEpoch < ElapsedDays(year + 1) {
      KindOfValid(year);
      DateInYearFinds(year, KindOf(year), daysSinceEpoch - ElapsedDays(year));
    }
  }

  predicate ValidDate(date: HebrewDate) {
    IsMonthOf(IsLeapYear(date.year), date.month) &&
    1 <= date.day <= MonthDays(KindOf(date.year), date.month)
  }

  /** Days from the epoch to a Hebrew date: the reverse of the month walk. */
  function DaysSinceEpoch(date: HebrewDate): int
  {
    ElapsedDays(date.year) + DaysBefore(KindOf(date.year), MonthsOfYear(date.year), 0, date.month) + date.day - 1
  }

  /** The reverse conversion: the Julian Day Number of a Hebrew date. */
  function FromHebrew(date: HebrewDate): int
  {
    EpochOffset + DaysSinceEpoch(date)
  }

  /** A valid date lies within its year's span. */
  lemma DateInItsYear(date: HebrewDate, daysSinceEpoch: int)
    requires ValidDate(date) && DaysSinceEpoch(date) == daysSinceEpoch
    ensures ElapsedDays(date.year) <= daysSinceEpoch < ElapsedDays(date.year + 1)
  {
    KindOfValid(date.year);
    DayCountWithinYear(KindOf(date.year), date.month, date.day);
  }

  /** Within its own year, the month walk finds a valid date from its day
      count. */
  lemma WalkFindsDate(date: HebrewDate, year: int, daysSinceEpoch: int)
    requires ValidDate(date) && date.year == year && DaysSinceEpoch(date) == daysSinceEpoch
    ensures DateInYear(year, KindOf(year), daysSinceEpoch - ElapsedDays(year)) == Success(date)
  {
    DateInYearInverts(year, KindOf(year), date.month, date.day);
  }

  /** Every valid date whose day count falls in the span of `year` is the
      date the month walk over `year` finds. */
  lemma OnlyDateOfDay(year: int, daysSinceEpoch: int)
    requires ElapsedDays(year) <= daysSinceEpoch < ElapsedDays(year + 1)
    ensures forall date | ValidDate(date) && DaysSinceEpoch(date) == daysSinceEpoch ::
      DateInYear(year, KindOf(year), daysSinceEpoch - ElapsedDays(year)) == Success(date)
  {
    forall date | ValidDate(date) && DaysSinceEpoch(date) == daysSinceEpoch
      ensures DateInYear(year, KindOf(year), daysSinceEpoch - ElapsedDays(year)) == Success(date)
    {
      OnlyDate(year, daysSinceEpoch, date);
    }
  }

  lemma OnlyDate(year: int, daysSinceEpoch: int, date: HebrewDate)
    requires ElapsedDays(year) <= daysSinceEpoch < ElapsedDays(year + 1)
    requires ValidDate(date) && DaysSinceEpoch(date) == daysSinceEpoch
    ensures DateInYear(year, KindOf(year), daysSinceEpoch - ElapsedDays(year)) == Success(date)
  {
    DateInItsYear(date, daysSinceEpoch);
    WalkFindsDate(date, date.year, daysSinceEpoch);
    SameWalk(year, date, daysSinceEpoch);
  }

  lemma SameWalk(year: int, date: HebrewDate, daysSinceEpoch: int)
    requires ElapsedDays(year) <= daysSinceEpoch < ElapsedDays(year + 1)
    requires ElapsedDays(date.year) <= daysSinceEpoch < ElapsedDays(date.year + 1)
    requires DateInYear(date.year, KindOf(date.year), daysSinceEpoch - ElapsedDays(date.year)) == Success(date)
    ensures DateInYear(year, KindOf(year), daysSinceEpoch - ElapsedDays(year)) == Success(date)
  {
    SameYear(year, date.year, daysSinceEpoch);
  }

  /** No valid date from year 1 on falls before the epoch. */
  lemma NoDateBeforeEpoch(daysSinceEpoch: int)
    requires daysSinceEpoch < 0
    ensures forall date | ValidDate(date) && date.year >= 1 :: DaysSinceEpoch(date) != daysSinceEpoch
  {
    forall date | ValidDate(date) && date.year >= 1
      ensures DaysSinceEpoch(date) != daysSinceEpoch
    {
      DateInItsYear(date, DaysSinceEpoch(date));
      FirstYearStartsAtEpoch(date.year);
    }
  }

  /** At most one year's span holds a given day. */
  lemma SameYear(a: int, b: int, d: int)
    requires ElapsedDays(a) <= d < ElapsedDays(a + 1)
    requires ElapsedDays(b) <= d < ElapsedDays(b + 1)
    ensures a == b
  {
    if a < b {
      StartsOrdered(a, b);
    } else if b < a {
      StartsOrdered(b, a);
    }
  }

  /** `julian_day_to_hebrew_date`. Every day from the epoch on converts to a
      valid date that converts back to it; every valid date from year 1 on is
      what its own day converts to; and the only error is the month walk
      running past the end of the year. */
  method ToHebrew(julianDay: int) returns (r: Result<HebrewDate, ConversionError>)
    ensures r.Failure? ==> r.error == CalculationError
    ensures julianDay >= EpochOffset ==> r.Success? && ValidDate(r.value) && FromHebrew(r.value) == julianDay
    ensures forall date | ValidDate(date) && date.year >= 1 && FromHebrew(date) == julianDay :: r == Success(date)
  {
    var daysSinceEpoch := julianDay - EpochOffset;
    var year := FindExactYear(EstimateYear(daysSinceEpoch), daysSinceEpoch);
    r := FindMonthAndDay(year, daysSinceEpoch);
    DateInYearErrors(year, KindOf(year), daysSinceEpoch - ElapsedDays(year));
    if daysSinceEpoch >= 0 {
      EstimateBound(daysSinceEpoch);
      OnlyDateOfDay(year, daysSinceEpoch);
    } else {
      NoDateBeforeEpoch(daysSinceEpoch);
    }
  }

  /** Year 1 and every later year start on or after the epoch. */
  lemma FirstYearStartsAtEpoch(year: int)
    requires year >= 1
    ensures ElapsedDays(year) >= 1
  {
    assert ElapsedDays(1) == 1 by {
      assert ElapsedMonths(1) == 0;
      assert Conjunction(1) == Molad(1, 5604);
    }
    if year > 1 {
      ElapsedDaysIncreasing(1, year);
    }
  }

  /** A later year starts no earlier than the day after an earlier one ends. */
  lemma StartsOrdered(a: int, b: int)
    requires a < b
    ensures ElapsedDays(a + 1) <= ElapsedDays(b)
  {
    if a + 1 < b {
      ElapsedDaysIncreasing(a + 1, b);
    }
  }

  const MonthNames: seq<string> :=
    ["Nisan", "Iyar", "Sivan", "Tammuz", "Av", "Elul", "Tishrei",
     "Cheshvan", "Kislev", "Tevet", "Shevat", "Adar", "Adar II"]

  /** `MONTH_NAMES[month - 1]` with Ruby's array indexing: a negative index
      counts from the end, an index out of range is `nil`. */
  function MonthName(month: int): (name: Option<string>)
    ensures 1 <= month <= 13 ==> name == Some(MonthNames[month - 1])
    ensures name.Some? <==> -12 <= month <= 13
    ensures -12 <= month <= 0 ==> name == Some(MonthNames[month + 12])
  {
    var i := month - 1;
    if 0 <= i < |MonthNames| then Some(MonthNames[i])
    else if -|MonthNames| <= i < 0 then Some(MonthNames[i + |MonthNames|])
    else None
  }

  /** Every month of the calendar has its own name. */
  lemma MonthNamesDistinct(a: int, b: int)
    requires 1 <= a <= 13 && 1 <= b <= 13 && a != b
    ensures MonthName(a) != MonthName(b)
  {
  }

  /** The month name as interpolated: a `nil` name reads as nothing. */
  function NameText(month: int): string {
    var name := MonthName(month);
    if name.Some? then name.value else ""
  }

  /** `to_formatted_string`: day, month name and year separated by spaces.
      Read back, the text before its first space is the day's numeral, the
      text after its last space the year's, and what lies between is the
      month name, which may itself hold a space ("Adar II"). */
  function FormattedString(date: HebrewDate): (text: string)
    ensures var i, j := Words.FirstSpace(text), Words.LastSpace(text);
      i < j && text[..i] == Decimal.IntToString(date.day) &&
      text[j + 1..] == Decimal.IntToString(date.year) && text[i + 1..j] == NameText(date.month)
  {
    var day, name, year := Decimal.IntToString(date.day), NameText(date.month), Decimal.IntToString(date.year);
    Words.NumeralNoSpace(date.day);
    Words.NumeralNoSpace(date.year);
    Words.ThreeWords(day, name, year);
    day + " " + name + " " + year
  }

  /** The formatted text of a date from year 0 on gives the date back: the
      first word reads as the day, the last as the year, and the words
      between are the name of the month. */
  lemma FormattedStringReadsBack(date: HebrewDate)
    requires ValidDate(date) && date.year >= 0
    ensures var text := FormattedString(date);
      var i, j := Words.FirstSpace(text), Words.LastSpace(text);
      Decimal.AllDigits(text[..i]) && Decimal.DigitsValue(text[..i]) == date.day &&
      Decimal.AllDigits(text[j + 1..]) && Decimal.DigitsValue(text[j + 1..]) == date.year &&
      text[i + 1..j] == MonthNames[date.month - 1]
  {
    Decimal.NatToStringRoundTrip(date.day);
    Decimal.NatToStringRoundTrip(date.year);
  }

  /** 1 Tishrei 5769 is day 2106743 of the calendar, a Tuesday: the molad
      falls on that Tuesday before the common-year threshold. */
  lemma NewYear5769()
    ensures ElapsedDays(5769) == 2106743
  {
    assert ElapsedMonths(5769) == 71341;
    assert Conjunction(5769) == Molad(2106743, 8617);
  }

  /** 1 Tishrei 5770 is the day of its molad, a Saturday. */
  lemma NewYear5770()
    ensures ElapsedDays(5770) == 2107097
  {
    assert ElapsedMonths(5770) == 71353;
    assert Conjunction(5770) == Molad(2107097, 18133);
  }

  /** 5769 is a regular common year of 354 days. */
  lemma Kind5769()
    ensures KindOf(5769) == YearKind(false, 354)
  {
    NewYear5769();
    NewYear5770();
  }

  /** Tishrei to Av of a 354-day common year: 325 days before 1 Elul. */
  lemma ElulStart354()
    ensures DaysBefore(YearKind(false, 354), MonthsIn(false), 0, 6) == 325
  {
    var kind, months := YearKind(false, 354), MonthsIn(false);
    assert DaysBefore(kind, months, 6, 6) == 148;
    assert DaysBefore(kind, months, 3, 6) == 236;
  }

  /** Julian Day 2455065 (21 August 2009) is 1 Elul 5769. */
  lemma Elul5769Example()
    ensures ValidDate(HebrewDate(5769, 6, 1)) && FromHebrew(HebrewDate(5769, 6, 1)) == 2455065
  {
    NewYear5769();
    Kind5769();
    ElulStart354();
  }

  lemma Elul5769Formatted()
    ensures FormattedString(HebrewDate(5769, 6, 1)) == "1 Elul 5769"
  {
    Decimal.FourDigitNumeral(5769, 5, 7, 6, 9);
  }

  /** 1 Tishrei 5774 is the day of its molad, a Thursday. */
  lemma NewYear5774()
    ensures ElapsedDays(5774) == 2108544
  {
    assert ElapsedMonths(5774) == 71402;
    assert Conjunction(5774) == Molad(2108544, 18110);
  }

  /** The molad of 5775 falls on a Wednesday, so the new year moves to Thursday. */
  lemma NewYear5775()
    ensures ElapsedDays(5775) == 2108929
  {
    assert ElapsedMonths(5775) == 71415;
    assert Conjunction(5775) == Molad(2108928, 15459);
  }

  /** The molad of 5776 falls after noon on a Sunday, so the new year moves to Monday. */
  lemma NewYear5776()
    ensures ElapsedDays(5776) == 2109283
  {
    assert ElapsedMonths(5776) == 71427;
    assert Conjunction(5776) == Molad(2109282, 24975);
  }

  /** The molad of 5777 falls after noon on a Saturday; Sunday is forbidden,
      so the new year moves two days, to Monday. */
  lemma NewYear5777()
    ensures ElapsedDays(5777) == 2109668
  {
    assert ElapsedMonths(5777) == 71440;
    assert Conjunction(5777) == Molad(2109666, 22324);
  }

  /** 5774 and 5776 are complete leap years of 385 days. */
  lemma Kind5774()
    ensures KindOf(5774) == YearKind(true, 385)
  {
    NewYear5774();
    NewYear5775();
  }

  lemma Kind5776()
    ensures KindOf(5776) == YearKind(true, 385)
  {
    NewYear5776();
    NewYear5777();
  }

  /** Tishrei to Shevat of a 385-day leap year: 149 days before 1 Adar, and
      Adar's 30 more before 1 Adar II. */
  lemma AdarStart385()
    ensures DaysBefore(YearKind(true, 385), MonthsIn(true), 0, Adar) == 149
    ensures DaysBefore(YearKind(true, 385), MonthsIn(true), 0, AdarII) == 179
  {
    var kind, months := YearKind(true, 385), MonthsIn(true);
    assert DaysBefore(kind, months, 3, Adar) == 59;
    assert DaysBefore(kind, months, 3, AdarII) == 89;
  }

  /** Julian Day 2456729 (12 March 2014) is 10 Adar II 5774. */
  lemma AdarII5774Example()
    ensures ValidDate(HebrewDate(5774, AdarII, 10)) && FromHebrew(HebrewDate(5774, AdarII, 10)) == 2456729
  {
    NewYear5774();
    Kind5774();
    AdarStart385();
  }

  lemma AdarII5774Formatted()
    ensures FormattedString(HebrewDate(5774, AdarII, 10)) == "10 Adar II 5774"
  {
    Decimal.FourDigitNumeral(5774, 5, 7, 7, 4);
    Decimal.TwoDigitNumeral(10);
  }

  /** Julian Day 2457429 (10 February 2016) is 1 Adar 5776, Adar I of a leap
      year. */
  lemma Adar5776Example()
    ensures ValidDate(HebrewDate(5776, Adar, 1)) && FromHebrew(HebrewDate(5776, Adar, 1)) == 2457429
  {
    NewYear5776();
    Kind5776();
    AdarStart385();
  }

  lemma Adar5776Formatted()
    ensures FormattedString(HebrewDate(5776, Adar, 1)) == "1 Adar 5776"
  {
    Decimal.FourDigitNumeral(5776, 5, 7, 7, 6);
  }
}
