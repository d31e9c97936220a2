/** The zodiac sign of a calendar date: twelve signs, each covering a span of
    month/day pairs, one of them (Capricornus) wrapping from December into
    January. A sign is looked up by the first entry of the table that
    includes the date; the year of the date plays no part. */
module ZodiacSigns {
  import opened Wrappers

  datatype Constellation =
    Capricornus | Aquarius | Pisces | Aries | Taurus | Gemini |
    Cancer | Leo | Virgo | Libra | Scorpius | Sagittarius

  /** A month and a day of the month, as the sign table stores its bounds. */
  datatype MonthDay = MonthDay(month: int, day: int)

  datatype Date = Date(year: int, month: int, day: int)

  datatype Sign = Sign(constellation: Constellation, start: MonthDay, end: MonthDay)

  /** `ZODIAC_DATA`, in the order the lookup tries the signs. */
  const ZodiacData: seq<Sign> := [
    Sign(Capricornus, MonthDay(12, 22), MonthDay(1, 19)),
    Sign(Aquarius, MonthDay(1, 20), MonthDay(2, 18)),
    Sign(Pisces, MonthDay(2, 19), MonthDay(3, 20)),
    Sign(Aries, MonthDay(3, 21), MonthDay(4, 19)),
    Sign(Taurus, MonthDay(4, 20), MonthDay(5, 20)),
    Sign(Gemini, MonthDay(5, 21), MonthDay(6, 20)),
    Sign(Cancer, MonthDay(6, 21), MonthDay(7, 22)),
    Sign(Leo, MonthDay(7, 23), MonthDay(8, 22)),
    Sign(Virgo, MonthDay(8, 23), MonthDay(9, 22)),
    Sign(Libra, MonthDay(9, 23), MonthDay(10, 22)),
    Sign(Scorpius, MonthDay(10, 23), MonthDay(11, 21)),
    Sign(Sagittarius, MonthDay(11, 22), MonthDay(12, 21))
  ]

  /** `spans_year_boundary?`: the sign starts in a later month than it ends. */
  predicate SpansYearBoundary(sign: Sign) {
    sign.start.month > sign.end.month
  }

  /** `includes?`: for a sign that wraps, the date is in its start month on
      or after the start day, or in its end month up to the end day; for any
      other sign, the date lies between start and end, inclusive, comparing
      months first and days second. */
  function Includes(sign: Sign, date: Date): (included: bool)
    ensures included && SpansYearBoundary(sign) ==> date.month == sign.start.month || date.month == sign.end.month
    ensures included && !SpansYearBoundary(sign) ==> sign.start.month <= date.month <= sign.end.month
    ensures (date.month == sign.start.month && date.day >= sign.start.day &&
             (date.month != sign.end.month || date.day <= sign.end.day)) ==> included
  {
    if SpansYearBoundary(sign) then
      (date.month == sign.start.month && date.day >= sign.start.day) ||
      (date.month == sign.end.month && date.day <= sign.end.day)
    else
      (date.month > sign.start.month || (date.month == sign.start.month && date.day >= sign.start.day)) &&
      (date.month < sign.end.month || (date.month == sign.end.month && date.day <= sign.end.day))
  }

  /** The index of the first sign of `signs`, from `i` on, that includes the date. */
  function FirstIncluding(signs: seq<Sign>, date: Date, i: nat): (r: Option<nat>)
    requires i <= |signs|
    ensures r.Some? ==> i <= r.value < |signs| && Includes(signs[r.value], date)
    ensures r.Some? ==> forall j :: i <= j < r.value ==> !Includes(signs[j], date)
    ensures r.None? <==> forall j :: i <= j < |signs| ==> !Includes(signs[j], date)
    decreases |signs| - i
  {
    if i == |signs| then None
    else if Includes(signs[i], date) then Some(i)
    else FirstIncluding(signs, date, i + 1)
  }

  /** `for_date`: the first sign of the table that includes the date, if any. */
  function ForDate(date: Date): (sign: Option<Sign>)
    ensures sign.Some? ==> sign.value in ZodiacData && Includes(sign.value, date)
    ensures sign.None? <==> forall j :: 0 <= j < |ZodiacData| ==> !Includes(ZodiacData[j], date)
  {
    var found := FirstIncluding(ZodiacData, date, 0);
    if found.Some? then Some(ZodiacData[found.value]) else None
  }

  /** Days in a month, with February's leap day: the table is consulted for
      dates of any year. */
  function MaxDay(month: int): int {
    if month == 2 then 29
    else if month == 4 || month == 6 || month == 9 || month == 11 then 30
    else 31
  }

  predicate ValidDate(date: Date) {
    1 <= date.month <= 12 && 1 <= date.day <= MaxDay(date.month)
  }

  /** Day of a leap year, 1 to 366, of a month and day. */
  function Ordinal(month: int, day: int): int {
    var before :=
      if month == 1 then 0 else if month == 2 then 31 else if month == 3 then 60
      else if month == 4 then 91 else if month == 5 then 121 else if month == 6 then 152
      else if month == 7 then 182 else if month == 8 then 213 else if month == 9 then 244
      else if month == 10 then 274 else if month == 11 then 305 else 335;
    before + day
  }

  function OrdinalOf(date: Date): int {
    Ordinal(date.month, date.day)
  }

  /** The days of the year a sign covers, as an arc of ordinals: from its
      start to its end, wrapping past the end of the year when the end comes
      first. */
  predicate InArc(sign: Sign, d: int) {
    var lo, hi := Ordinal(sign.start.month, sign.start.day), Ordinal(sign.end.month, sign.end.day);
    if lo <= hi then lo <= d <= hi else d >= lo || d <= hi
  }

  predicate OnArc(sign: Sign, date: Date) {
    InArc(sign, OrdinalOf(date))
  }

  /** Comparing months first and days second is comparing days of the year. */
  lemma OrdinalOrder(a: Date, m: int, d: int)
    requires ValidDate(a) && ValidDate(Date(0, m, d))
    ensures (a.month > m || (a.month == m && a.day >= d)) <==> OrdinalOf(a) >= Ordinal(m, d)
  {
  }

  /** Every sign of the table covers exactly its arc of the year: the
      step-by-step comparison of `includes?` agrees with the day-of-year
      reading of the table, for the wrapping sign too. */
  lemma IncludesIffOnArc(i: int, date: Date)
    requires 0 <= i < |ZodiacData| && ValidDate(date)
    ensures Includes(ZodiacData[i], date) <==> OnArc(ZodiacData[i], date)
  {
    var sign := ZodiacData[i];
    if !SpansYearBoundary(sign) {
      OrdinalOrder(date, sign.start.month, sign.start.day);
      OrdinalOrder(Date(0, sign.end.month, sign.end.day), date.month, date.day);
    }
  }

  /** Only Capricornus wraps around the new year. */
  lemma OnlyCapricornusSpans(i: int)
    requires 0 <= i < |ZodiacData|
    ensures SpansYearBoundary(ZodiacData[i]) <==> ZodiacData[i].constellation == Capricornus
  {
  }

  /** The arcs follow each other around the year: each sign starts the day
      after the previous one ends, and Capricornus starts the day after
      Sagittarius ends. */
  lemma ArcsAdjacent(i: int)
    requires 0 < i < |ZodiacData|
    ensures Ordinal(ZodiacData[i].start.month, ZodiacData[i].start.day) ==
      Ordinal(ZodiacData[i - 1].end.month, ZodiacData[i - 1].end.day) + 1
  {
  }

  /** Every valid date, 29 February included, lies in exactly one sign:
      the one whose arc holds its day of the year. */
  lemma ExactlyOneSign(date: Date)
    requires ValidDate(date)
    ensures exists i :: 0 <= i < |ZodiacData| && Includes(ZodiacData[i], date)
    ensures forall i, j :: 0 <= i < j < |ZodiacData| && Includes(ZodiacData[i], date) ==> !Includes(ZodiacData[j], date)
  {
    var d := OrdinalOf(date);
    forall i | 0 <= i < |ZodiacData|
      ensures Includes(ZodiacData[i], date) <==> i == SignIndexOf(d)
    {
      IncludesIffOnArc(i, date);
      ArcIndex(i, d);
    }
    assert Includes(ZodiacData[SignIndexOf(d)], date);
  }

  /** Which sign's arc holds a day of the year. */
  function SignIndexOf(d: int): (k: int)
    ensures 0 <= k < |ZodiacData|
  {
    if d <= 19 || d >= 357 then 0 else if d <= 49 then 1 else if d <= 80 then 2
    else if d <= 110 then 3 else if d <= 141 then 4 else if d <= 172 then 5
    else if d <= 204 then 6 else if d <= 235 then 7 else if d <= 266 then 8
    else if d <= 296 then 9 else if d <= 326 then 10 else 11
  }

  /** The arcs of the table partition the days of a leap year. */
  lemma ArcIndex(i: int, d: int)
    requires 0 <= i < |ZodiacData|
    ensures InArc(ZodiacData[i], d) <==> i == SignIndexOf(d)
  {
  }

  /** `for_date` finds a sign for every valid date, and that sign is the
      only one that includes it. */
  lemma ForDateTotal(date: Date)
    requires ValidDate(date)
    ensures ForDate(date).Some?
    ensures forall i :: 0 <= i < |ZodiacData| && Includes(ZodiacData[i], date) ==> ForDate(date) == Some(ZodiacData[i])
  {
    ExactlyOneSign(date);
  }

  /** The year of a date never decides its sign. */
  lemma ForDateIgnoresYear(a: Date, b: Date)
    requires a.month == b.month && a.day == b.day
    ensures ForDate(a) == ForDate(b)
  {
    assert forall j :: 0 <= j < |ZodiacData| ==> (Includes(ZodiacData[j], a) <==> Includes(ZodiacData[j], b));
  }

  /** At the January boundary, 19 January is still Capricornus and
      20 January is Aquarius. */
  lemma JanuaryBoundary()
    ensures ForDate(Date(2025, 1, 19)) == Some(ZodiacData[0]) && ZodiacData[0].constellation == Capricornus
    ensures ForDate(Date(2025, 1, 20)) == Some(ZodiacData[1]) && ZodiacData[1].constellation == Aquarius
  {
    ForDateTotal(Date(2025, 1, 19));
    ForDateTotal(Date(2025, 1, 20));
    assert Includes(ZodiacData[1], Date(2025, 1, 20));
  }

  /** At the December boundary, 21 December is still Sagittarius and
      22 December is Capricornus again. */
  lemma DecemberBoundary()
    ensures ForDate(Date(2025, 12, 21)) == Some(ZodiacData[11]) && ZodiacData[11].constellation == Sagittarius
    ensures ForDate(Date(2025, 12, 22)) == Some(ZodiacData[0]) && ZodiacData[0].constellation == Capricornus
  {
    ForDateTotal(Date(2025, 12, 21));
    ForDateTotal(Date(2025, 12, 22));
    assert Includes(ZodiacData[11], Date(2025, 12, 21));
  }
}
