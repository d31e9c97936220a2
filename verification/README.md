# Caelus core in Dafny

This project models the pure logic of Caelus, a Rails application that tells an
observer what the sky holds for a given night. The ephemeris is not part of the
model. Rise, transit and set instants, twilight instants, transit times and
altitudes come from an astronomy library; here they are inputs. The model
combines those inputs in the following ways:

- **Moon interference** (`MoonInterference`): the Moon-up intervals around a night, their overlap with the night, the rounded percentage and the six-level category.
- **Visibility** (`Visibility`, over Ruby range semantics in `TimeRanges`): whether a planet or deep-sky object can be seen during the night. Mercury and Venus use civil twilight; every other body uses astronomical twilight.
- **Yearly elevation** (`YearlyElevation`): the daily series of transit elevations, clamped at zero, with its first minimum, its first maximum and the point for the current day.
- **Hebrew calendar** (`HebrewMolad`, `HebrewYearLength`, `HebrewCalendar`):
  - the molad of Tishrei and the postponement rules;
  - year and month lengths;
  - the conversion of a Julian Day Number to a Hebrew date, and the date's text.
- **Zodiac signs** (`ZodiacSigns`): the sign table, the month/day membership test and the first-match lookup.
- **UTC offsets** (`UtcOffsets`): the offset validator and the 94 options of the location form.
- **Moon phase name** (`MoonPhase`): the classification of the shifted phase angle, plus the waxing/waning split by age.
- **Helpers**:
  - duration text and the placeholder for a missing instant (`DateTimeHelper`);
  - compass sector and hemisphere letters (`ObserverHelper`);
  - the instrument needed for a Messier object and its `M<n>` label (`MessierObject`).

How the model represents Caelus's data:

- Instants are integer seconds, and an instant that may be `nil` is an `Option<int>`.
- Angles, ages and magnitudes are exact reals.
- Strings are sequences of characters.
- A Ruby exception becomes a `Failure` of a `Result`.
- `Wrappers` holds `Option` and `Result`.
- `Decimal` holds decimal numerals: `to_s` of an integer, reading digits back, and `rjust`.
- `Words` finds the first and the last space of a text, which is how the duration and date texts are read back.
- `Ephemeris` holds the shapes of the ephemeris answers.

## Model

| member | source | states |
|---|---|---|
| TimeRanges.OverlapsIffCommonInstant | app/models/visibility.rb:17 | `overlap?` on closed or endless ranges, decided step by step as Ruby does, holds exactly when some instant lies in both ranges; touching ends count |
| TimeRanges.EmptyNeverOverlaps | app/models/visibility.rb:17 | a range whose end lies before its begin overlaps nothing |
| TimeRanges.OverlapsSymmetric | app/models/visibility.rb:17 | overlap does not depend on which range asks |
| TimeRanges.OverlapsMonotone | app/models/visibility.rb:17-20 | widening a range never loses an overlap |
| TimeRanges.CoversMonotone | app/models/visibility.rb:18 | widening a range never loses a covered instant; `cover?(nil)` is false |
| Visibility.PolicyFor | app/models/visibility.rb:90-100 | civil twilight exactly for Mercury and Venus, astronomical for every other body |
| Visibility.NightWindow | app/models/visibility.rb:80-101 | the night exists exactly when all four twilight instants exist, and it runs from the evening twilight of the body's policy to the next morning's |
| Visibility.Night | app/models/visibility.rb:80-101 | `night` for a body: the window of its own twilight policy, civil for Mercury and Venus and astronomical otherwise; its contract is NightWindow's, and PolicyFor pins the choice |
| Visibility.VisibilityRange | app/models/visibility.rb:103-114 | absent without today's rising and setting; `rise..set` when the body sets after rising; otherwise it ends at tomorrow's setting, unchecked, and is endless when there is none |
| Visibility.VisibleUnder | app/models/visibility.rb:10-21 | never visible without the night or without today's rising and setting |
| Visibility.Visible | app/models/visibility.rb:10-21 | `visible?` with the body's own twilight policy: a positive verdict needs all four twilight instants and today's rising and setting |
| Visibility.VisibleIffSomeInstant | app/models/visibility.rb:15-20 | visible exactly when both ranges exist and some instant of the night lies in the up-range, or tomorrow's rising lies in the night |
| Visibility.VisibleInMonotone | app/models/visibility.rb:17-20 | enlarging the night never turns a positive verdict negative |
| Visibility.AstronomicalVisibleImpliesCivilVisible | app/models/visibility.rb:90-100 | with the usual twilight order, a body visible in the astronomical night is visible in the civil one |
| Visibility.NoRisingTodayMeansInvisible | app/models/visibility.rb:104-106 | no rising today means invisible, even if tomorrow's rising falls in the night |
| Visibility.MercuryPolicyExample | app/models/visibility.rb:90-100 | the same sky makes Mercury visible and Mars not, through the twilight policy |
| MoonInterference.NightRange | app/models/moon_interference.rb:81-83 | the night is sunset D to sunrise D+1, absent if either is missing |
| MoonInterference.DayRange | app/models/moon_interference.rb:89-105 | nothing without a moonrise; rise to same-day set when the set comes later; otherwise rise to next day's set, unchecked, or nothing |
| MoonInterference.ThirdDayRange | app/models/moon_interference.rb:107-111 | day D+2 contributes only a range whose rise precedes its set |
| MoonInterference.MoonRanges | app/models/moon_interference.rb:85-115 | the range opened on D comes first, then the one opened on D+1, then that of D+2, each present exactly when its day yields one, so there are at most three; each is opened by a moonrise and closed by that day's or the next day's moonset, and a D+2 range rises before it sets |
| MoonInterference.Overlap | app/models/moon_interference.rb:13-15 | the overlap is positive exactly when the later start precedes the earlier end, and never exceeds either length |
| MoonInterference.LengthCountsSeconds | app/models/moon_interference.rb:13-15 | a span's length is the number of whole seconds it covers, start included and end not |
| MoonInterference.OverlapIsLengthOfIntersection | app/models/moon_interference.rb:13-15 | the overlap is the number of seconds covered by both the Moon range and the night, so it does not depend on which of the two is the night |
| MoonInterference.OverlapAdditive | app/models/moon_interference.rb:13-15 | splitting a Moon range splits its overlap |
| MoonInterference.OverlapMonotone | app/models/moon_interference.rb:13-15 | a longer night never overlaps less |
| MoonInterference.SumOverlaps | app/models/moon_interference.rb:12-16 | the sum is at most one night length per range, no smaller than any one overlap, and zero exactly when no range overlaps |
| MoonInterference.SumOverlapsAppend | app/models/moon_interference.rb:12-16 | the sum over two lists joined is the sum of their sums |
| MoonInterference.Duration | app/models/moon_interference.rb:11-17 | zero with no Moon range; otherwise it raises exactly when the night is missing; with a night it is the sum of the clipped overlaps of the Moon ranges, at most three nights long |
| MoonInterference.DurationByDay | app/models/moon_interference.rb:11-17 | with a night, the duration is the overlap of the range opened on D plus that of D+1 plus that of D+2, an absent range adding nothing |
| MoonInterference.RoundRatio | app/models/moon_interference.rb:22 | nearest integer to the exact quotient, halves away from zero |
| MoonInterference.Percentage | app/models/moon_interference.rb:19-24 | succeeds exactly when the night is present and of non-zero length; otherwise it raises for the missing sun event or for the zero-length night; a result is 0..300, zero for a reversed night, and within half a percent of 100·duration/night |
| MoonInterference.RoundedShare | app/models/moon_interference.rb:21-22 | the rounded share of at most three nights lies in 0..300 |
| MoonInterference.CategoryOf | app/models/moon_interference.rb:26-41 | `none` exactly for 0, `full` exactly for 100 up and for negative values, and the band rank `p / 25 + 1` from 1 to 99 |
| MoonInterference.Interference | app/models/moon_interference.rb:26-41 | the category of the percentage, succeeding exactly when the night is present and of non-zero length |
| MoonInterference.CategoryBands | app/models/moon_interference.rb:26-41 | each category is exactly one band: 0, 1-24, 25-49, 50-74, 75-99, and `full` for 100 up and every negative value |
| MoonInterference.CategoryMonotone | app/models/moon_interference.rb:26-41 | over non-negative percentages the category never gets milder as the percentage grows |
| MoonInterference.MoonUpEarlyEveningExample | spec/models/moon_interference_spec.rb:18-22 | a 628-minute night with 208 Moon-up minutes gives 33 percent, moderate |
| YearlyElevation.ElevationAt | app/models/yearly_elevation.rb:64-69 | a positive altitude is kept, anything else becomes exactly zero |
| YearlyElevation.Data | app/models/yearly_elevation.rb:13-31 | exactly `samples` points, point i for day i+1 and date offset i with the clamped altitude of the i-th transit; fewer transits than samples is an error |
| YearlyElevation.Minimum | app/models/yearly_elevation.rb:33-35 | nothing for an empty series, else a point of the series no higher than any and strictly lower than every earlier one |
| YearlyElevation.Maximum | app/models/yearly_elevation.rb:37-39 | nothing for an empty series, else a point of the series no lower than any and strictly higher than every earlier one |
| YearlyElevation.FirstMinimumUnique | app/models/yearly_elevation.rb:33-35 | ties go to the earliest point, so the minimum is determined |
| YearlyElevation.FirstMaximumUnique | app/models/yearly_elevation.rb:37-39 | ties go to the earliest point, so the maximum is determined |
| YearlyElevation.FindYday | app/models/yearly_elevation.rb:43 | the first point with the day of the year, or none when no point has it |
| YearlyElevation.Current | app/models/yearly_elevation.rb:41-45 | a point with the day of the year when there is one, else the first point, and nothing for an empty series |
| YearlyElevation.CurrentOfDailySeries | app/models/yearly_elevation.rb:41-45 | in a daily series, day n (1 to samples) gives point n-1; any other day gives the first point |
| YearlyElevation.LeapYearLastDay | app/models/yearly_elevation.rb:41-45 | with the default 365 samples, day 366 shows the elevation of 1 January |
| HebrewMolad.ConjunctionInHours | lib/hebrew_calendar.rb:154-173 | Caelus's hours-and-parts computation puts the molad at 31524 + 765433·months parts, split into a day and its parts in [0, 25920) |
| HebrewMolad.Conjunction | lib/hebrew_calendar.rb:150-164 | the molad of Tishrei as a day and parts in [0, 25920) summing to the epoch molad plus one mean lunation per elapsed month |
| HebrewMolad.IsLeapYear | lib/hebrew_calendar.rb:146-148 | `hebrew_leap_year?`, the 19-year cycle test; LeapCycle, SevenLeapYearsPerCycle and NoConsecutiveLeapYears pin it |
| HebrewMolad.ElapsedMonths | lib/hebrew_calendar.rb:150-152 | `calculate_elapsed_months`; Ruby's floored division and Dafny's agree for the positive divisor 19; ElapsedMonthsStep and MonthsOverYears pin it |
| HebrewMolad.HoursElapsed | lib/hebrew_calendar.rb:169-173 | `calculate_hours_elapsed` with the constants 5, 12 and 793; ConjunctionInHours and ConjunctionInHoursAgrees pin what it contributes |
| HebrewMolad.ConjunctionInHoursAgrees | lib/hebrew_calendar.rb:154-173 | both computations of the molad agree |
| HebrewMolad.ApplyDayOfWeekRules | lib/hebrew_calendar.rb:206-209 | a Sunday, Wednesday or Friday moves one day; no other day moves; the result is none of those days |
| HebrewMolad.MoladPostponementRequired | lib/hebrew_calendar.rb:188-204 | the noon, common-year Tuesday and post-leap-year Monday tests; ElapsedDaysByMolad, CommonLengthFromMolad and LeapLengthFromMolad pin their effect |
| HebrewMolad.ApplyMoladRules | lib/hebrew_calendar.rb:180-186 | `apply_molad_rules`, one day later when a postponement is required; ElapsedDays and ElapsedDaysByMolad pin it |
| HebrewMolad.ElapsedDays | lib/hebrew_calendar.rb:175-209 | 1 Tishrei lies 0 to 2 days after the molad's day, never on Sunday, Wednesday or Friday |
| HebrewMolad.ElapsedMonthsStep | lib/hebrew_calendar.rb:150-152 | a leap year has 13 months, a common one 12 |
| HebrewMolad.ElapsedDaysGrows | lib/hebrew_calendar.rb:154-167 | each year starts at least 352 days after the previous one |
| HebrewMolad.ElapsedDaysIncreasing | lib/hebrew_calendar.rb:117-127 | later years start strictly later, so the year search ends |
| HebrewMolad.SevenLeapYearsPerCycle | lib/hebrew_calendar.rb:146-148 | any 19 consecutive years hold exactly 7 leap years |
| HebrewMolad.MonthsOverYears | lib/hebrew_calendar.rb:150-152 | months elapse twelve per year plus one per leap year |
| HebrewMolad.LeapCycle | lib/hebrew_calendar.rb:146-148 | leap years repeat every 19 years |
| HebrewYearLength.ElapsedDaysByMolad | lib/hebrew_calendar.rb:154-209 | the new year is a function of the molad counted in parts and of two leap flags |
| HebrewYearLength.NewYearDayWeekly | lib/hebrew_calendar.rb:175-209 | moving the molad by whole weeks moves the new year by as many weeks |
| HebrewYearLength.NoConsecutiveLeapYears | lib/hebrew_calendar.rb:146-148 | the years around a leap year are common |
| HebrewYearLength.NextMolad | lib/hebrew_calendar.rb:150-164 | the next molad of Tishrei is 13 lunations later after a leap year, 12 after a common one |
| HebrewYearLength.CommonLengthFromMolad | lib/hebrew_calendar.rb:175-209 | wherever its molad falls, a common year has 353, 354 or 355 days |
| HebrewYearLength.LeapLengthFromMolad | lib/hebrew_calendar.rb:175-209 | wherever its molad falls, a leap year has 383, 384 or 385 days |
| HebrewMolad.YearLength | lib/hebrew_calendar.rb:242-244 | the year's length carries its new year to the next one, and is at least 352 days |
| HebrewYearLength.YearLengthValid | lib/hebrew_calendar.rb:242-244 | every year length is 353-355 for a common year and 383-385 for a leap year |
| HebrewCalendar.KindOfValid | lib/hebrew_calendar.rb:242-244 | every year is one of the six allowed kinds |
| HebrewCalendar.MonthLengthIn | lib/hebrew_calendar.rb:217-240 | Tishrei, Shevat, Nisan, Sivan and Av have 30 days; Tevet, Iyar, Tammuz, Elul and month 13 have 29; Cheshvan has 30 exactly when the year length ends in 5, Kislev 29 exactly when it ends in 3, Adar 30 exactly in a leap year; any other number raises `ArgumentError` |
| HebrewCalendar.MonthLength | lib/hebrew_calendar.rb:217-232 | `calculate_month_length` for a year: the table of MonthLengthIn for the year's kind, which CheshvanKislevByKind spells out per kind |
| HebrewCalendar.CheshvanKislevByKind | lib/hebrew_calendar.rb:223-240 | Cheshvan and Kislev have 29 and 29 days in a deficient year, 29 and 30 in a regular one, 30 and 30 in a complete one; Adar has 30 exactly in a leap year |
| HebrewCalendar.MonthsInShape | lib/hebrew_calendar.rb:211-215 | the list starts at Tishrei, holds each month of the year once, 13 months in a leap year and 12 otherwise, and Adar II only in a leap year |
| HebrewCalendar.MonthsIn | lib/hebrew_calendar.rb:211-215 | `hebrew_months_list`, Tishrei first and month 13 only in a leap year; MonthsInShape pins it |
| HebrewCalendar.MonthsFillYear | lib/hebrew_calendar.rb:217-244 | the month lengths of each kind of year add up to the year's length |
| HebrewCalendar.WalkFinds | lib/hebrew_calendar.rb:129-144 | within the year the month walk succeeds with a month of the list and a day within it whose day count is the one given; past the year it raises |
| HebrewCalendar.WalkInverts | lib/hebrew_calendar.rb:129-144 | walking to a month and day's count gives that month and day back |
| HebrewCalendar.FindExactYear | lib/hebrew_calendar.rb:117-127 | the year found starts on or before the day, and every year skipped starts after it |
| HebrewCalendar.EstimateBound | lib/hebrew_calendar.rb:113-115 | from the epoch on, the year after the estimate starts after the day, so the downward search cannot miss |
| HebrewCalendar.EstimateYear | lib/hebrew_calendar.rb:113-115 | `estimate_hebrew_year`; EstimateBound shows it is never too low for the downward search |
| HebrewCalendar.DateInYearFinds | lib/hebrew_calendar.rb:129-144 | every day count within a year names a month of that year and a day within it |
| HebrewCalendar.DateInYearInverts | lib/hebrew_calendar.rb:129-144 | the day count of a month and day of the year converts back to them |
| HebrewCalendar.DateInYearErrors | lib/hebrew_calendar.rb:143 | the only error of the walk is the calculation error |
| HebrewCalendar.FindMonthAndDay | lib/hebrew_calendar.rb:129-144 | the loop computes the walk, and within the year's span it finds the valid date with the given day count |
| HebrewCalendar.DateInItsYear | lib/hebrew_calendar.rb:129-144 | a valid date lies within its year's span |
| HebrewCalendar.OnlyDateOfDay | lib/hebrew_calendar.rb:129-144 | every valid date with the day count is the date the walk finds |
| HebrewCalendar.SameYear | lib/hebrew_calendar.rb:117-127 | at most one year's span holds a day |
| HebrewCalendar.NoDateBeforeEpoch | lib/hebrew_calendar.rb:105-106 | no valid date from year 1 on lies before the epoch |
| HebrewCalendar.ToHebrew | lib/hebrew_calendar.rb:105-111 | every day from the epoch on converts to a valid date that converts back to it; every valid date from year 1 on is what its own day converts to; the only error is the calculation error |
| HebrewCalendar.FirstYearStartsAtEpoch | lib/hebrew_calendar.rb:154-167 | year 1 and every later year start after the epoch |
| HebrewCalendar.StartsOrdered | lib/hebrew_calendar.rb:154-167 | a later year starts no earlier than the day after an earlier one ends |
| HebrewCalendar.MonthName | lib/hebrew_calendar.rb:86-88 | months 1 to 13 get their names; months -12 to 0 get the name 13 places further on, as Ruby's negative indexes count from the end; anything else is `nil` |
| HebrewCalendar.FormattedString | lib/hebrew_calendar.rb:74-76 | before the first space is the day's numeral, after the last space the year's, and between them the month name, empty for `nil` |
| HebrewCalendar.FormattedStringReadsBack | lib/hebrew_calendar.rb:74-76 | for a valid date from year 0 on, the first word reads back as the day, the last as the year, and the words between are the month's name |
| HebrewCalendar.MonthNamesDistinct | lib/hebrew_calendar.rb:7-21 | no two months share a name |
| HebrewCalendar.Elul5769Example | spec/hebrew_calendar_spec.rb:7-12 | Julian Day 2455065 (21 August 2009) is 1 Elul 5769 |
| HebrewCalendar.Elul5769Formatted | spec/hebrew_calendar_spec.rb:81-86 | that date reads "1 Elul 5769" |
| HebrewCalendar.AdarII5774Example | spec/hebrew_calendar_spec.rb:55-60 | Julian Day 2456729 (12 March 2014) is 10 Adar II 5774 |
| HebrewCalendar.AdarII5774Formatted | spec/hebrew_calendar_spec.rb:129-134 | that date reads "10 Adar II 5774" |
| HebrewCalendar.Adar5776Example | spec/hebrew_calendar_spec.rb:71-76 | Julian Day 2457429 (10 February 2016) is 1 Adar 5776 |
| HebrewCalendar.Adar5776Formatted | spec/hebrew_calendar_spec.rb:145-150 | that date reads "1 Adar 5776" |
| ZodiacSigns.FirstIncluding | app/models/zodiac_sign.rb:46-48 | the first sign from a position on that includes the date, or none exactly when none does |
| ZodiacSigns.ForDate | app/models/zodiac_sign.rb:46-48 | a sign of the table that includes the date, or nothing exactly when no sign does |
| ZodiacSigns.OrdinalOrder | app/models/zodiac_sign.rb:39-42 | comparing months then days is comparing days of the year |
| ZodiacSigns.Includes | app/models/zodiac_sign.rb:34-44 | an included date lies in the start or end month of a wrapping sign, between them otherwise; a date in the start month from the start day on, and before the end day when that month is also the end month, is included |
| ZodiacSigns.IncludesIffOnArc | app/models/zodiac_sign.rb:34-44 | for every sign of the table, `includes?` holds exactly on its arc of the year, the wrapping sign included |
| ZodiacSigns.OnlyCapricornusSpans | app/models/zodiac_sign.rb:6-19 | only Capricornus spans the year boundary |
| ZodiacSigns.ArcsAdjacent | app/models/zodiac_sign.rb:6-19 | each sign starts the day after the previous one ends |
| ZodiacSigns.ExactlyOneSign | app/models/zodiac_sign.rb:6-19 | every valid month and day, 29 February included, lies in exactly one sign |
| ZodiacSigns.ArcIndex | app/models/zodiac_sign.rb:6-19 | the arcs partition the days of a leap year |
| ZodiacSigns.ForDateTotal | app/models/zodiac_sign.rb:46-48 | the lookup never returns nil for a valid date, and returns the one sign that includes it |
| ZodiacSigns.ForDateIgnoresYear | app/models/zodiac_sign.rb:34-44 | the year never decides the sign |
| ZodiacSigns.JanuaryBoundary | spec/models/zodiac_sign_spec.rb:42-47 | 19 January is Capricornus, 20 January Aquarius |
| ZodiacSigns.DecemberBoundary | spec/models/zodiac_sign_spec.rb:48-53 | 21 December is Sagittarius, 22 December Capricornus |
| UtcOffsets.ValidUtcOffset | app/controllers/location_controller.rb:25-29 | an accepted value is present, not blank and at least six characters long |
| UtcOffsets.OffsetStringValid | app/controllers/location_controller.rb:28 | a sign, an hour from 0 to 12 and a quarter minute make an accepted offset that reads back as its signed minutes |
| UtcOffsets.StrictOffsetParses | app/controllers/location_controller.rb:28 | every string the pattern accepts whole is such an offset |
| UtcOffsets.StrictValidAcceptsExactlyOffsets | app/controllers/location_controller.rb:25-29 | the validator anchored to the whole value accepts exactly the strings made of a sign, an hour from 00 to 12, `:` and one of 00, 15, 30 and 45 |
| UtcOffsets.AnyLineAccepted | app/controllers/location_controller.rb:25-29 | a value, of one line or of many, is accepted exactly when it is some text that is empty or ends with a newline, then a strict offset, then some text that is empty or starts with a newline: `^` and `$` anchor at line ends |
| UtcOffsets.SingleLineAgrees | app/controllers/location_controller.rb:25-29 | without a newline, the validator accepts exactly the strings that are one offset |
| UtcOffsets.StrictImpliesValid | app/controllers/location_controller.rb:28 | every exact offset passes the validator |
| UtcOffsets.AcceptsOffsetOnLaterLine | app/controllers/location_controller.rb:28 | the line anchors let a value with an offset on a later line pass |
| UtcOffsets.RejectedSingleLine | app/controllers/location_controller.rb:25-29 | a single line that is not an offset is rejected |
| UtcOffsets.AcceptedExamples | spec/requests/location_spec.rb:62-66 | +00:00, +05:30, -08:00, +12:00, -12:00, +03:15 and -06:30 pass |
| UtcOffsets.RejectedExamples | spec/requests/location_spec.rb:81-85 | 13:00, +13:00, -13:00, +00:10, -00:20, 00:00 and "invalid" fail, and so do an empty and a missing value |
| UtcOffsets.FormattedOption | app/controllers/location_controller.rb:54-64 | the option's display text is its value |
| UtcOffsets.PaddedTwoDigits | app/controllers/location_controller.rb:57-58 | `rjust(2, "0")` of a number below 100 is its two digits |
| UtcOffsets.FormattedValue | app/controllers/location_controller.rb:55-60 | the value is `+` for a non-negative hour or `-`, the hour's magnitude and the minute in two digits each |
| UtcOffsets.FormattedOptionFor | app/controllers/location_controller.rb:54-64 | each option is the offset text of its signed minutes |
| UtcOffsets.OffsetTextValid | app/controllers/location_controller.rb:54-64 | the text of any quarter hour within twelve hours of UTC is an offset that reads back as those minutes |
| UtcOffsets.AddOption | app/controllers/location_controller.rb:40 | appending the next option in order keeps the list in order |
| UtcOffsets.WestOptions | app/controllers/location_controller.rb:36-42 | the first loop yields 45 options in order, -12:00 to -01:00 |
| UtcOffsets.EastOptions | app/controllers/location_controller.rb:43-49 | the second loop adds 49 more, +00:00 to +12:00 |
| UtcOffsets.UtcOffsetOptions | app/controllers/location_controller.rb:33-52 | 94 options, each shown as submitted, the i-th being the offset text of the i-th quarter hour of the list |
| UtcOffsets.OptionMinutesOrder | app/controllers/location_controller.rb:33-52 | options run strictly upward from -12:00 to +12:00 |
| UtcOffsets.OptionMinutesCover | app/controllers/location_controller.rb:33-52 | a quarter hour within twelve hours is offered exactly when it is not one of -00:45, -00:30 and -00:15 |
| UtcOffsets.OptionTextValid | app/controllers/location_controller.rb:25-64 | every offered option passes the validator, strictly too, and reads back as its minutes |
| MoonPhase.CurrentPhaseName | app/models/moon.rb:70-86 | each band of the shifted angle has its names: full and new moon exactly on their bands, a crescent, quarter or gibbous name exactly on its band; a waxing name only up to half a synodic month of age, a waning name only after |
| MoonPhase.BandIntervals | app/models/moon.rb:75-85 | the ranges tried in order are disjoint intervals: shared ends go to the earlier class, and outside every range is new moon |
| MoonPhase.WaxingIffYoung | app/models/moon.rb:73-80 | in the crescent, quarter and gibbous bands the name is waxing exactly when the age is at most half a synodic month |
| MoonPhase.FullAndNewIgnoreAge | app/models/moon.rb:81-84 | full moon and new moon do not depend on the age |
| MoonPhase.HalfTurnBands | app/models/moon.rb:9-23 | for a phase angle from 0 to 180 only the second range of each pair can hold the shifted angle, and the bands move away from full as the angle grows |
| MoonPhase.PhaseExamples | app/models/moon.rb:70-86 | angle 0 is full, 180 is new, 90 is first quarter when young and last quarter when old |
| DateTimeHelper.NillableDatetime | app/helpers/date_time_helper.rb:4-10 | `nil` shows the empty set sign; an instant shows its localised text |
| DateTimeHelper.Clock | app/helpers/date_time_helper.rb:14-17 | hours, minutes below 60 and seconds below 60 recompose the magnitude |
| DateTimeHelper.ClockUnique | app/helpers/date_time_helper.rb:14-17 | that split is the only one |
| DateTimeHelper.DurationToHuman | app/helpers/date_time_helper.rb:12-27 | the text starts with `-` exactly for a negative duration |
| DateTimeHelper.DurationReadsBack | app/helpers/date_time_helper.rb:12-27 | the text parses as a sign and two numerals with units; from one hour on they are hours and minutes that recompose the magnitude less its seconds, below an hour minutes and seconds that recompose it exactly |
| DateTimeHelper.NegatedDuration | app/helpers/date_time_helper.rb:13-14 | a negative duration reads as `-` followed by its magnitude's text |
| DateTimeHelper.SecondsDroppedFromAnHour | app/helpers/date_time_helper.rb:20-22 | from one hour on, durations in the same minute read the same |
| DateTimeHelper.DurationExamples | spec/helpers/date_time_helper_spec.rb:37-51 | 3665 reads "1h 1m", 125 "2m 5s", -3665 "-1h 1m" |
| ObserverHelper.Mod360 | app/helpers/observer_helper.rb:34 | floored modulo: a value in [0, 360) that differs by whole turns |
| ObserverHelper.SectorIndex | app/helpers/observer_helper.rb:34 | the index is 0 to 7, and its 45 degrees hold the reduced azimuth |
| ObserverHelper.CardinalDirection | app/helpers/observer_helper.rb:23-36 | the direction is the k-th of the eight, clockwise from north, for the k whose 45 degrees hold the reduced azimuth |
| ObserverHelper.SectorIff | app/helpers/observer_helper.rb:23-36 | the direction is the k-th exactly when the reduced azimuth lies in [45k, 45k+45) |
| ObserverHelper.FullTurn | app/helpers/observer_helper.rb:34 | a whole turn does not change the direction |
| ObserverHelper.DirectionExamples | spec/helpers/observer_helper_spec.rb:38-58 | 0 and 22.5 are N, 45 and 67.5 NE, 337.5 NW, 360 N |
| ObserverHelper.ObserverCoordinates | app/helpers/observer_helper.rb:4-21 | North exactly from latitude 0 up, else South; East exactly from longitude 0 up, else West; magnitudes non-negative |
| ObserverHelper.CoordinatesRoundTrip | app/helpers/observer_helper.rb:7-20 | magnitude and hemisphere give back the signed latitude and longitude |
| MessierObject.VisibleWith | app/models/messier_object.rb:37-45 | naked eye exactly up to magnitude 4, telescope exactly from 6, binoculars exactly in between |
| MessierObject.VisibleWithMonotone | app/models/messier_object.rb:37-45 | a fainter object never needs less instrument |
| MessierObject.VisibleWithExamples | spec/models/messier_object_spec.rb:34-43 | magnitudes 3.5, 5 and 7 need the naked eye, binoculars and a telescope |
| Decimal.NatToString | app/models/messier_object.rb:28-30 | `to_s` of a number is a non-empty string of digits without a leading zero, one digit exactly below 10 |
| Decimal.NatToStringRoundTrip | app/models/messier_object.rb:28-30 | the digits of `to_s` read back as the number |
| MessierObject.MessierNumber | app/models/messier_object.rb:28-30 | the label is `M` and then the number, just `M` for a missing number |
| MessierObject.MessierNumberRoundTrip | app/models/messier_object.rb:28-30 | the digits after `M` read back as the catalogue number |
| MessierObject.MessierNumberExample | spec/models/messier_object_spec.rb:10 | 42 is labelled "M42" |

## Left out

- Ephemeris: rise/transit/set, twilight, transit times, altitude, Moon age and phase angle come from an external astronomy library and are inputs here.
- Time arithmetic: instants are integer seconds, while Ruby's `Time - Time` is a Float. Percentages are rounded from the exact ratio.
- MoonInterference.Percentage: the Float division and `round` are modelled as exact rational rounding, so a ratio whose Float image lands on the other side of a half is not reproduced.
- Gregorian to Julian Day (lib/hebrew_calendar.rb:97-103): this uses Ruby's `Date#jd`, which switches to the Julian calendar before 1582. `HebrewCalendar.ToHebrew` takes the Julian Day Number as input.
- HebrewCalendar.ToHebrew: success is promised only from the epoch on. Before it, the downward year search still ends, but it is not shown to land on a valid date.
- Translations: the unit symbols h, m and s, the compass and hemisphere labels, the instrument names and the phase names stand for their English I18n values or are enums.
- ObserverHelper.ObserverCoordinates: the `%.2f` rounding and the degree sign of the printed text are not modelled. The contract is about the magnitude and the hemisphere only.
- ObserverHelper.CardinalDirection: returns the direction as an enum, not the localised label with its arrow symbol.
- DateTimeHelper.DurationToHuman: its own contract states only the sign; the hours, minutes and seconds it shows are stated by DateTimeHelper.DurationReadsBack, which parses the text back.
- DateTimeHelper.DurationToHuman: Float durations (for example 125.7 seconds, truncated by `to_i`) are not modelled; durations are whole seconds.
- DateTimeHelper.NillableDatetime: the localisation of a present instant, with its UTC offset and format, is a function parameter.
- UtcOffsets.ValidUtcOffset: its own contract states only what every accepted value has; exactly which values it accepts, of one line or of many, is stated by UtcOffsets.AnyLineAccepted, and UtcOffsets.SingleLineAgrees ties single-line values to the strict validator.
- UtcOffsets.ValidUtcOffset: `blank?` is modelled for ASCII white space only, not for other Unicode space characters.
- MoonPhase.CurrentPhaseName: angles are exact reals. Caelus compares Float radians, so the shared boundaries (81, 99, 168 degrees and so on) may fall either way there. The model also assumes that building an angle from degrees keeps its value unreduced. For phase angles from 0 to 180 that changes at most 360 into 0, and both of those are new moon.
- YearlyElevation.Data: Caelus does not check that there are as many transits as samples; the model makes the shortfall an error.
- YearlyElevation.Data: the date of a point is represented by its offset in days from 1 January.
- Visibility.Visible: its own contract states only the conditions every positive verdict needs; the full verdict is stated by Visibility.VisibleIffSomeInstant under the policy that Visibility.PolicyFor gives the body.
- ZodiacSigns.Includes: its own contract bounds the months of an included date; for the signs of the table the exact days are stated by ZodiacSigns.IncludesIffOnArc.
- HebrewMolad.YearLength: its own contract gives only the lower bound of 352 days; the six possible lengths are stated by HebrewYearLength.YearLengthValid.
- MessierObject.VisibleWith: a missing magnitude, which would raise on comparison, is not modelled.
- The moon-interference scenario whose minute figures (347 of 637) do not give the expected 55 percent is not stated as a lemma.
- Controllers other than the two UTC-offset helpers, cookies, routing, SVG and view rendering, the JavaScript controllers and the thin planet and number wrappers are outside the core.
- The Hijri calendar and the Messier catalogue are not part of this model.

## Findings

| source | as written | input that shows it | evidently intended | confidence | as-written member | corrected member |
|---|---|---|---|---|---|---|
| app/controllers/location_controller.rb:28 | the offset pattern is anchored with `^` and `$`, which in Ruby match at every line, so any value with one offset line passes | "junk\n+05:30" is accepted | accept only a value that is exactly one offset (`\A` … `\z`) | medium, not executed | UtcOffsets.AcceptsOffsetOnLaterLine | UtcOffsets.StrictValidAcceptsExactlyOffsets |
