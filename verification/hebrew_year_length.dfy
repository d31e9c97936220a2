/** The postponement rules keep every Hebrew year at one of six lengths:
    353, 354 or 355 days for a common year, 383, 384 or 385 for a leap year.
    The length depends only on where in the week the year's molad falls and
    on the leap status of the year and its neighbours, so the proof fixes the
    molad within one week and checks each day of that week. */
module HebrewYearLength {
  import opened HebrewMolad

  // A week is 181440 parts (7 * 25920) and a lunation 765433 parts.

  /** The day of 1 Tishrei for a molad given in parts since the epoch,
      with the year's and the previous year's leap status. */
  function NewYearDay(molad: int, leap: bool, prevLeap: bool): int {
    var day := molad / 25920;
    var parts := molad % 25920;
    var postponed :=
      parts >= 19440 ||
      (day % 7 == 2 && parts >= 9924 && !leap) ||
      (day % 7 == 1 && parts >= 16789 && prevLeap);
    var alt := if postponed then day + 1 else day;
    if ForbiddenWeekDay(alt) then alt + 1 else alt
  }

  /** A common year has 353, 354 or 355 days; a leap year 383, 384 or 385. */
  predicate ValidCommonLength(days: int) {
    353 <= days <= 355
  }

  predicate ValidLeapLength(days: int) {
    383 <= days <= 385
  }

  function MoladOf(year: int): int {
    31524 + 765433 * ElapsedMonths(year)
  }

  lemma ElapsedDaysByMolad(year: int)
    ensures ElapsedDays(year) == NewYearDay(MoladOf(year), IsLeapYear(year), IsLeapYear(year - 1))
  {
    var m := Conjunction(year);
    assert m.day == MoladOf(year) / 25920 && m.parts == MoladOf(year) % 25920;
  }

  /** Moving the molad by whole weeks moves the new year by as many weeks. */
  lemma NewYearDayWeekly(t: int, k: int, leap: bool, prevLeap: bool)
    ensures NewYearDay(t + 181440 * k, leap, prevLeap) == NewYearDay(t, leap, prevLeap) + 7 * k
  {
    var day, parts := t / 25920, t % 25920;
    DivModUnique(t + 181440 * k, day + 7 * k, parts);
    assert (day + 7 * k) % 7 == day % 7;
    assert (day + 1 + 7 * k) % 7 == (day + 1) % 7;
    assert (day + 2 + 7 * k) % 7 == (day + 2) % 7;
  }

  /** A common year's length for a molad on week day `d` of the first week. */
  lemma CommonYearOnDay(t: int, d: int, nextLeap: bool, prevLeap: bool)
    requires 0 <= d < 7 && 25920 * d <= t < 25920 * (d + 1)
    ensures ValidCommonLength(NewYearDay(t + 12 * 765433, nextLeap, false) - NewYearDay(t, false, prevLeap))
  {
    assert t / 25920 == d;
    var next := t + 12 * 765433;
    assert next == t + 354 * 25920 + 9516;
    if t % 25920 + 9516 < 25920 {
      assert next / 25920 == d + 354 && next % 25920 == t % 25920 + 9516;
    } else {
      assert next / 25920 == d + 355 && next % 25920 == t % 25920 + 9516 - 25920;
    }
  }

  /** A leap year's length for a molad on week day `d` of the first week. */
  lemma LeapYearOnDay(t: int, d: int)
    requires 0 <= d < 7 && 25920 * d <= t < 25920 * (d + 1)
    ensures ValidLeapLength(NewYearDay(t + 13 * 765433, false, true) - NewYearDay(t, true, false))
  {
    assert t / 25920 == d;
    var next := t + 13 * 765433;
    assert next == t + 383 * 25920 + 23269;
    if t % 25920 + 23269 < 25920 {
      assert next / 25920 == d + 383 && next % 25920 == t % 25920 + 23269;
    } else {
      assert next / 25920 == d + 384 && next % 25920 == t % 25920 + 23269 - 25920;
    }
  }

  lemma NoConsecutiveLeapYears(year: int)
    requires IsLeapYear(year)
    ensures !IsLeapYear(year + 1) && !IsLeapYear(year - 1)
  {
    var r := (7 * year + 1) % 19;
    assert 7 * (year + 1) + 1 == (7 * year + 1) + 7;
    assert 7 * (year - 1) + 1 == (7 * year + 1) - 7;
  }

  /** The molad's place in its week: `molad` is `t` plus whole weeks, with
      `t` on day `d` of the first week. */
  lemma WeekPlace(molad: int) returns (k: int, t: int, d: int)
    ensures molad == t + 181440 * k
    ensures 0 <= d < 7 && 25920 * d <= t < 25920 * (d + 1)
  {
    k := molad / 181440;
    t := molad % 181440;
    d := t / 25920;
    assert t == 25920 * d + t % 25920;
  }

  /** A common year's length from its molad alone. */
  lemma CommonLengthFromMolad(molad: int, prev: bool, next: bool)
    ensures ValidCommonLength(NewYearDay(molad + 12 * 765433, next, false) - NewYearDay(molad, false, prev))
  {
    var k, t, d := WeekPlace(molad);
    assert molad + 12 * 765433 == (t + 12 * 765433) + 181440 * k;
    NewYearDayWeekly(t, k, false, prev);
    NewYearDayWeekly(t + 12 * 765433, k, next, false);
    CommonYearOnDay(t, d, next, prev);
  }

  /** A leap year's length from its molad alone; the years around a leap
      year are common. */
  lemma LeapLengthFromMolad(molad: int)
    ensures ValidLeapLength(NewYearDay(molad + 13 * 765433, false, true) - NewYearDay(molad, true, false))
  {
    var k, t, d := WeekPlace(molad);
    assert molad + 13 * 765433 == (t + 13 * 765433) + 181440 * k;
    NewYearDayWeekly(t, k, true, false);
    NewYearDayWeekly(t + 13 * 765433, k, false, true);
    LeapYearOnDay(t, d);
  }

  /** Every year is 353, 354 or 355 days long, or 383, 384 or 385 when it is
      a leap year; so Cheshvan and Kislev are the only months whose length
      varies with the year. */
  lemma YearLengthValid(year: int)
    ensures IsLeapYear(year) ==> ValidLeapLength(YearLength(year))
    ensures !IsLeapYear(year) ==> ValidCommonLength(YearLength(year))
  {
    if IsLeapYear(year) {
      LeapYearLength(year);
    } else {
      CommonYearLength(year);
    }
  }

  lemma LeapYearLength(year: int)
    requires IsLeapYear(year)
    ensures ValidLeapLength(YearLength(year))
  {
    NoConsecutiveLeapYears(year);
    NextMolad(year);
    ElapsedDaysByMolad(year);
    ElapsedDaysByMolad(year + 1);
    LeapLengthFromMolad(MoladOf(year));
  }

  lemma CommonYearLength(year: int)
    requires !IsLeapYear(year)
    ensures ValidCommonLength(YearLength(year))
  {
    NextMolad(year);
    ElapsedDaysByMolad(year);
    ElapsedDaysByMolad(year + 1);
    CommonLengthFromMolad(MoladOf(year), IsLeapYear(year - 1), IsLeapYear(year + 1));
  }

  /** The next molad of Tishrei is thirteen lunations later after a leap
      year and twelve after a common one. */
  lemma NextMolad(year: int)
    ensures MoladOf(year + 1) == MoladOf(year) + (if IsLeapYear(year) then 13 else 12) * 765433
  {
    ElapsedMonthsStep(year);
  }
}
