/** The arithmetic of the fixed Hebrew calendar: the 19-year leap cycle, the
    molad (mean conjunction) of Tishrei of each year counted in days and
    parts (1/1080 hour), and the postponement rules that turn it into the
    number of days from the epoch to the new year. Ruby's `/` and `%` with a
    positive divisor floor, exactly as Dafny's do. */
module HebrewMolad {

  // Days of the week for the postponement rules, counted from the epoch.
  const Sunday := 0
  const Monday := 1
  const Tuesday := 2
  const Wednesday := 3
  const Friday := 5

  const MoladNoonThreshold := 19440
  const CommonYearTuesdayThreshold := 9924
  const LeapYearMondayThreshold := 16789

  /** Parts (1/1080 hour) in a day. The contracts below write the other
      quantities in parts as literals, so that the solver sees linear
      arithmetic: 765433 parts in the mean lunation of 29 days, 12 hours and
      793 parts, and 31524 parts for the molad of the epoch, day 1 at
      5 hours 204 parts. */
  const PartsPerDay := 25920

  /** Years 3, 6, 8, 11, 14, 17 and 19 of each 19-year cycle have a
      thirteenth month. */
  predicate IsLeapYear(year: int) {
    (7 * year + 1) % 19 < 7
  }

  /** Months from the epoch to Tishrei of `year`. */
  function ElapsedMonths(year: int): int {
    (235 * year - 234) / 19
  }

  /** A molad: the day it falls on and the parts of that day elapsed. */
  datatype Molad = Molad(day: int, parts: int)

  function HoursElapsed(monthsElapsed: int, partsElapsed: int): int {
    5 + 12 * monthsElapsed + 793 * (monthsElapsed / 1080) + partsElapsed / 1080
  }

  /** The molad of Tishrei of `year` as Caelus computes it, in hours and
      parts to keep the numbers small. It is the epoch molad plus one mean
      lunation per elapsed month, split into days and parts. */
  function ConjunctionInHours(year: int): (m: Molad)
    ensures 0 <= m.parts < PartsPerDay
    ensures m.day * 25920 + m.parts == 31524 + 765433 * ElapsedMonths(year)
  {
    var monthsElapsed := ElapsedMonths(year);
    var partsElapsed := 204 + 793 * (monthsElapsed % 1080);
    var hours := HoursElapsed(monthsElapsed, partsElapsed);
    assert monthsElapsed == 1080 * (monthsElapsed / 1080) + monthsElapsed % 1080;
    assert partsElapsed == 1080 * (partsElapsed / 1080) + partsElapsed % 1080;
    assert hours == 24 * (hours / 24) + hours % 24;
    Molad(1 + 29 * monthsElapsed + hours / 24, 1080 * (hours % 24) + partsElapsed % 1080)
  }

  /** The molad of Tishrei of `year` counted in parts from the epoch and
      split into whole days and the parts of the last day. */
  function Conjunction(year: int): (m: Molad)
    ensures 0 <= m.parts < PartsPerDay
    ensures m.day * 25920 + m.parts == 31524 + 765433 * ElapsedMonths(year)
  {
    var total := 31524 + 765433 * ElapsedMonths(year);
    Molad(total / 25920, total % 25920)
  }

  /** Caelus's hours-and-parts computation yields the same molad, so the
      model may use the closed form. */
  lemma ConjunctionInHoursAgrees(year: int)
    ensures ConjunctionInHours(year) == Conjunction(year)
  {
    var a, b := ConjunctionInHours(year), Conjunction(year);
    var total := 31524 + 765433 * ElapsedMonths(year);
    assert a.day == total / 25920 && a.parts == total % 25920 by {
      DivModUnique(total, a.day, a.parts);
    }
  }

  /** Division by a day's parts has a single quotient and remainder. */
  lemma DivModUnique(total: int, q: int, r: int)
    requires 0 <= r < 25920 && total == q * 25920 + r
    ensures q == total / 25920 && r == total % 25920
  {
  }

  /** The molad is too late in the day (at or after noon), or falls on a
      Tuesday at 9 hours 204 parts or later in a common year, or on a Monday
      at 15 hours 589 parts or later right after a leap year. */
  predicate MoladPostponementRequired(day: int, parts: int, year: int) {
    parts >= MoladNoonThreshold ||
    (day % 7 == Tuesday && parts >= CommonYearTuesdayThreshold && !IsLeapYear(year)) ||
    (day % 7 == Monday && parts >= LeapYearMondayThreshold && IsLeapYear(year - 1))
  }

  function ApplyMoladRules(day: int, parts: int, year: int): int {
    if MoladPostponementRequired(day, parts, year) then day + 1 else day
  }

  /** Sunday, Wednesday and Friday: the week days 1 Tishrei may not fall on. */
  predicate ForbiddenWeekDay(day: int) {
    var w := day % 7;
    w == Sunday || w == Wednesday || w == Friday
  }

  /** The new year never falls on a Sunday, Wednesday or Friday: such a day
      moves to the next one. */
  function ApplyDayOfWeekRules(day: int): (r: int)
    ensures !ForbiddenWeekDay(r)
    ensures day <= r <= day + 1
    ensures r == day <==> !ForbiddenWeekDay(day)
  {
    if ForbiddenWeekDay(day) then day + 1 else day
  }

  /** Days from the epoch to 1 Tishrei of `year`: the molad's day postponed
      by at most two days, never onto a Sunday, Wednesday or Friday. */
  function ElapsedDays(year: int): (r: int)
    ensures Conjunction(year).day <= r <= Conjunction(year).day + 2
    ensures !ForbiddenWeekDay(r)
  {
    var molad := Conjunction(year);
    ApplyDayOfWeekRules(ApplyMoladRules(molad.day, molad.parts, year))
  }

  function YearLength(year: int): (length: int)
    ensures length >= 352
    ensures ElapsedDays(year) + length == ElapsedDays(year + 1)
  {
    ElapsedDaysGrows(year);
    ElapsedDays(year + 1) - ElapsedDays(year)
  }

  /** Tishrei to Tishrei spans 13 months in a leap year and 12 otherwise. */
  lemma ElapsedMonthsStep(year: int)
    ensures ElapsedMonths(year + 1) - ElapsedMonths(year) == if IsLeapYear(year) then 13 else 12
  {
    var a := 235 * year - 234;
    var r := a % 19;
    assert ElapsedMonths(year) == a / 19;
    assert ElapsedMonths(year + 1) == (a + 235) / 19;
    DivStep(a);
    assert 7 * year + 1 == (a + 7) + 19 * (12 - 12 * year);
    ModShift(a + 7, 12 - 12 * year);
    assert (7 * year + 1) % 19 == (r + 7) % 19;
  }

  lemma DivStep(a: int)
    ensures (a + 235) / 19 == a / 19 + 12 + (a % 19 + 7) / 19
  {
    var q, r := a / 19, a % 19;
    assert a + 235 == 19 * (q + 12) + (r + 7);
  }

  lemma ModShift(x: int, k: int)
    ensures (x + 19 * k) % 19 == x % 19
  {
  }

  /** Each year starts at least 352 days after the previous one. */
  lemma ElapsedDaysGrows(year: int)
    ensures ElapsedDays(year) + 352 <= ElapsedDays(year + 1)
  {
    ElapsedMonthsStep(year);
    var a := Conjunction(year);
    var b := Conjunction(year + 1);
    assert b.day * 25920 + b.parts >= a.day * 25920 + a.parts + 12 * 765433;
  }

  lemma {:induction false} ElapsedDaysIncreasing(a: int, b: int)
    requires a < b
    ensures ElapsedDays(a) < ElapsedDays(b)
    decreases b - a
  {
    ElapsedDaysGrows(a);
    if a + 1 < b {
      ElapsedDaysIncreasing(a + 1, b);
    }
  }

  /** Exactly seven of any nineteen consecutive years are leap years: the
      nineteen years span 235 months, twelve per year and one more per leap
      year. */
  lemma SevenLeapYearsPerCycle(start: int)
    ensures LeapYearsFrom(start, 19) == 7
  {
    MonthsOverYears(start, 19);
    assert 235 * (start + 19) - 234 == (235 * start - 234) + 19 * 235;
  }

  /** The number of leap years among `count` years from `start`. */
  function LeapYearsFrom(start: int, count: nat): nat
    decreases count
  {
    if count == 0 then 0
    else (if IsLeapYear(start) then 1 else 0) + LeapYearsFrom(start + 1, count - 1)
  }

  /** Months elapse twelve per year plus one per leap year. */
  lemma {:induction false} MonthsOverYears(start: int, count: nat)
    ensures ElapsedMonths(start + count) - ElapsedMonths(start) == 12 * count + LeapYearsFrom(start, count)
    decreases count
  {
    if count > 0 {
      ElapsedMonthsStep(start);
      MonthsOverYears(start + 1, count - 1);
    }
  }

  /** The leap years repeat every nineteen years. */
  lemma LeapCycle(year: int)
    ensures IsLeapYear(year + 19) == IsLeapYear(year)
  {
    assert 7 * (year + 19) + 1 == (7 * year + 1) + 19 * 7;
    ModShift(7 * year + 1, 7);
  }
}
