/** The Moon-interference engine: how much of the night starting on evening D
    the Moon spends above the horizon, as a duration in seconds, a rounded
    percentage of the night, and a six-level category. Sun and Moon rise/set
    instants for D, D+1 and D+2 are inputs. */
module MoonInterference {
  import W = Wrappers
  import opened Ephemeris

  /** A closed range `lo..hi` of instants with both ends present. It may be
      empty (`hi < lo`): nothing checks the order of its ends. */
  datatype Span = Span(lo: int, hi: int)

  /** Severity levels, in increasing order. */
  datatype Category = None | Low | Moderate | High | Extreme | Full

  /** The ways Caelus raises: an absent sunset or sunrise reaches a
      comparison or a subtraction, or the night has zero length and the
      floating-point ratio cannot be rounded. */
  datatype InterferenceError = MissingSunEvent | ZeroLengthNight

  function Max(a: int, b: int): int { if a < b then b else a }

  function Min(a: int, b: int): int { if a < b then a else b }

  function Rank(c: Category): nat {
    match c
    case None => 0
    case Low => 1
    case Moderate => 2
    case High => 3
    case Extreme => 4
    case Full => 5
  }

  /** The night `[sunset D, sunrise D+1]`, absent if either is missing. */
  function NightRange(sunToday: RiseTransitSet, sunTomorrow: RiseTransitSet): (night: W.Option<Span>)
    ensures night.Some? <==> sunToday.setting.Some? && sunTomorrow.rising.Some?
    ensures night.Some? ==> night.value.lo == sunToday.setting.value && night.value.hi == sunTomorrow.rising.value
  {
    if sunToday.setting.Some? && sunTomorrow.rising.Some? then
      W.Some(Span(sunToday.setting.value, sunTomorrow.rising.value))
    else
      W.None
  }

  /** The Moon-up range opened by `day`'s moonrise: up to the same day's
      moonset when that comes after the rise, otherwise up to `next` day's
      moonset (not compared with the rise), and nothing without a rise or
      without a closing moonset. */
  function DayRange(day: RiseTransitSet, next: RiseTransitSet): (range: W.Option<Span>)
    ensures day.rising.None? ==> range.None?
    ensures day.rising.Some? && day.setting.Some? && day.rising.value < day.setting.value ==>
      range == W.Some(Span(day.rising.value, day.setting.value))
    ensures day.rising.Some? && !(day.setting.Some? && day.rising.value < day.setting.value) ==>
      (range.Some? <==> next.setting.Some?) &&
      (range.Some? ==> range.value == Span(day.rising.value, next.setting.value))
  {
    if day.rising.None? then W.None
    else if day.setting.Some? && day.rising.value < day.setting.value then
      W.Some(Span(day.rising.value, day.setting.value))
    else if next.setting.Some? then
      W.Some(Span(day.rising.value, next.setting.value))
    else
      W.None
  }

  /** The range of day D+2, kept only when its rise precedes its set. */
  function ThirdDayRange(day: RiseTransitSet): (range: W.Option<Span>)
    ensures range.Some? <==> day.rising.Some? && day.setting.Some? && day.rising.value < day.setting.value
    ensures range.Some? ==> range.value == Span(day.rising.value, day.setting.value)
  {
    if day.rising.Some? && day.setting.Some? && day.rising.value < day.setting.value then
      W.Some(Span(day.rising.value, day.setting.value))
    else
      W.None
  }

  function Listed(range: W.Option<Span>): (s: seq<Span>)
    ensures range.Some? ==> s == [range.value]
    ensures range.None? ==> s == []
  {
    if range.Some? then [range.value] else []
  }

  /** `moon_ranges`: the intervals opened by the moonrises of D, D+1 and D+2,
      in that order. */
  function MoonRanges(d0: RiseTransitSet, d1: RiseTransitSet, d2: RiseTransitSet): (ranges: seq<Span>)
    ensures |ranges| <= 3
    ensures forall i :: 0 <= i < |ranges| ==>
      OpenedBy(ranges[i], d0, d1) || OpenedBy(ranges[i], d1, d2) ||
      (d2.rising == W.Some(ranges[i].lo) && d2.setting == W.Some(ranges[i].hi) && ranges[i].lo < ranges[i].hi)
    ensures d0.rising.None? && d1.rising.None? ==> |ranges| <= 1
    ensures |ranges| == 3 ==>
      d0.rising.Some? && d1.rising.Some? && d2.rising.Some? && d2.setting.Some? &&
      ranges[2] == Span(d2.rising.value, d2.setting.value)
    ensures |ranges| == |Listed(DayRange(d0, d1))| + |Listed(DayRange(d1, d2))| + |Listed(ThirdDayRange(d2))|
    ensures DayRange(d0, d1).Some? ==> ranges[0] == DayRange(d0, d1).value
    ensures DayRange(d1, d2).Some? ==> ranges[|Listed(DayRange(d0, d1))|] == DayRange(d1, d2).value
    ensures ThirdDayRange(d2).Some? ==> ranges[|ranges| - 1] == ThirdDayRange(d2).value
  {
    Listed(DayRange(d0, d1)) + Listed(DayRange(d1, d2)) + Listed(ThirdDayRange(d2))
  }

  /** The span starts at `day`'s moonrise and ends at the moonset of that
      day or of the `next` one. */
  predicate OpenedBy(span: Span, day: RiseTransitSet, next: RiseTransitSet) {
    day.rising == W.Some(span.lo) && (day.setting == W.Some(span.hi) || next.setting == W.Some(span.hi))
  }

  /** Length of a span, zero for an empty one. */
  function Length(s: Span): nat {
    if s.hi > s.lo then s.hi - s.lo else 0
  }

  /** The time a Moon range spends inside the night: from the later start to
      the earlier end, or nothing when those do not follow each other. */
  function Overlap(moon: Span, night: Span): (d: nat)
    ensures d <= Length(night) && d <= Length(moon)
    ensures d > 0 <==> Max(moon.lo, night.lo) < Min(moon.hi, night.hi)
  {
    var start := Max(night.lo, moon.lo);
    var end := Min(night.hi, moon.hi);
    if end > start then end - start else 0
  }

  /** The seconds a span covers, its start included and its end not. */
  function Seconds(s: Span): (secs: set<int>)
    ensures forall x :: x in secs <==> s.lo <= x < s.hi
    decreases s.hi - s.lo
  {
    if s.hi <= s.lo then {} else Seconds(Span(s.lo, s.hi - 1)) + {s.hi - 1}
  }

  /** The length of a span counts its seconds. */
  lemma {:induction false} LengthCountsSeconds(s: Span)
    ensures |Seconds(s)| == Length(s)
    decreases s.hi - s.lo
  {
    if s.hi > s.lo {
      var shorter := Span(s.lo, s.hi - 1);
      LengthCountsSeconds(shorter);
      assert s.hi - 1 !in Seconds(shorter);
    }
  }

  /** The overlap counts the seconds both spans cover, and so does not
      depend on which span is the night. */
  lemma OverlapIsLengthOfIntersection(moon: Span, night: Span)
    ensures Overlap(moon, night) == |Seconds(moon) * Seconds(night)|
    ensures Overlap(moon, night) == Overlap(night, moon)
  {
    var common := Span(Max(moon.lo, night.lo), Min(moon.hi, night.hi));
    assert Seconds(moon) * Seconds(night) == Seconds(common);
    LengthCountsSeconds(common);
  }

  /** Splitting a Moon range at any inner instant splits its overlap with the
      night the same way: the overlap behaves as a length measure. */
  lemma OverlapAdditive(a: int, c: int, b: int, night: Span)
    requires a <= c <= b
    ensures Overlap(Span(a, b), night) == Overlap(Span(a, c), night) + Overlap(Span(c, b), night)
  {
  }

  /** A longer night never loses overlap with a Moon range. */
  lemma OverlapMonotone(moon: Span, night: Span, wider: Span)
    requires wider.lo <= night.lo && night.hi <= wider.hi
    ensures Overlap(moon, night) <= Overlap(moon, wider)
  {
  }

  /** The sum of the overlaps of every Moon range with the night. */
  function SumOverlaps(ranges: seq<Span>, night: Span): (total: nat)
    ensures total <= |ranges| * Length(night)
    ensures total == 0 <==> forall i :: 0 <= i < |ranges| ==> Overlap(ranges[i], night) == 0
    ensures forall i :: 0 <= i < |ranges| ==> Overlap(ranges[i], night) <= total
  {
    if |ranges| == 0 then 0
    else
      var rest := SumOverlaps(ranges[1..], night);
      OneMoreNight(|ranges|, Length(night));
      assert forall i :: 1 <= i < |ranges| ==> ranges[i] == ranges[1..][i - 1];
      Overlap(ranges[0], night) + rest
  }

  lemma OneMoreNight(n: nat, length: nat)
    requires n > 0
    ensures n * length == (n - 1) * length + length
  {
  }

  /** The sum over a concatenation is the sum of the two sums. */
  lemma {:induction false} SumOverlapsAppend(a: seq<Span>, b: seq<Span>, night: Span)
    ensures SumOverlaps(a + b, night) == SumOverlaps(a, night) + SumOverlaps(b, night)
  {
    if |a| > 0 {
      assert (a + b)[1..] == a[1..] + b;
      SumOverlapsAppend(a[1..], b, night);
    } else {
      assert a + b == b;
    }
  }

  /** The overlap of a range that may be absent; an absent one adds nothing. */
  function OverlapOf(range: W.Option<Span>, night: Span): nat {
    if range.Some? then Overlap(range.value, night) else 0
  }

  /** `duration`: seconds of Moon-up time inside the night. With no Moon range
      nothing looks at the night, so a missing sunset or sunrise does not
      matter; otherwise it makes Caelus raise. */
  function Duration(sunToday: RiseTransitSet, sunTomorrow: RiseTransitSet,
                    d0: RiseTransitSet, d1: RiseTransitSet, d2: RiseTransitSet): (r: W.Result<nat, InterferenceError>)
    ensures MoonRanges(d0, d1, d2) == [] ==> r == W.Success(0)
    ensures MoonRanges(d0, d1, d2) != [] ==> (r.Failure? <==> NightRange(sunToday, sunTomorrow).None?)
    ensures r.Success? && NightRange(sunToday, sunTomorrow).Some? ==>
      r.value <= 3 * Length(NightRange(sunToday, sunTomorrow).value)
    ensures r.Success? && NightRange(sunToday, sunTomorrow).Some? ==>
      r.value == SumOverlaps(MoonRanges(d0, d1, d2), NightRange(sunToday, sunTomorrow).value)
  {
    var ranges := MoonRanges(d0, d1, d2);
    var night := NightRange(sunToday, sunTomorrow);
    if |ranges| == 0 then W.Success(0)
    else if night.None? then W.Failure(MissingSunEvent)
    else
      var total := SumOverlaps(ranges, night.value);
      ThreeNightsBound(total, |ranges|, Length(night.value));
      W.Success(total)
  }

  lemma ThreeNightsBound(total: nat, count: nat, length: nat)
    requires count <= 3 && total <= count * length
    ensures total <= 3 * length
  {
  }

  /** Day by day: the duration is the overlap of the range opened on D,
      plus that of the range opened on D+1, plus that of the D+2 range, each
      counting zero when the range is absent. */
  lemma DurationByDay(sunToday: RiseTransitSet, sunTomorrow: RiseTransitSet,
                      d0: RiseTransitSet, d1: RiseTransitSet, d2: RiseTransitSet)
    requires NightRange(sunToday, sunTomorrow).Some?
    ensures
      var night := NightRange(sunToday, sunTomorrow).value;
      Duration(sunToday, sunTomorrow, d0, d1, d2) ==
        W.Success(OverlapOf(DayRange(d0, d1), night) + OverlapOf(DayRange(d1, d2), night) +
                  OverlapOf(ThirdDayRange(d2), night))
  {
    var night := NightRange(sunToday, sunTomorrow).value;
    assert Duration(sunToday, sunTomorrow, d0, d1, d2) == W.Success(SumOverlaps(MoonRanges(d0, d1, d2), night));
    SumOfThree(DayRange(d0, d1), DayRange(d1, d2), ThirdDayRange(d2), night);
  }

  /** The sum over the listed ranges of three days, day by day. */
  lemma SumOfThree(x: W.Option<Span>, y: W.Option<Span>, z: W.Option<Span>, night: Span)
    ensures SumOverlaps(Listed(x) + Listed(y) + Listed(z), night) ==
      OverlapOf(x, night) + OverlapOf(y, night) + OverlapOf(z, night)
  {
    SumOverlapsAppend(Listed(x) + Listed(y), Listed(z), night);
    SumOverlapsAppend(Listed(x), Listed(y), night);
    ListedOverlap(x, night);
    ListedOverlap(y, night);
    ListedOverlap(z, night);
  }

  lemma ListedOverlap(range: W.Option<Span>, night: Span)
    ensures SumOverlaps(Listed(range), night) == OverlapOf(range, night)
  {
    if range.Some? {
      assert Listed(range)[1..] == [];
    }
  }

  /** `num / den` rounded to the nearest integer, halves away from zero, for
      a positive denominator. */
  function RoundRatio(num: int, den: int): (r: int)
    requires den > 0
    ensures num >= 0 ==> 2 * r * den - den <= 2 * num < 2 * r * den + den
    ensures num < 0 ==> 2 * r * den - den < 2 * num <= 2 * r * den + den
  {
    if num >= 0 then
      var q := (2 * num + den) / (2 * den);
      assert 2 * den * q <= 2 * num + den < 2 * den * q + 2 * den;
      q
    else
      var q := (2 * -num + den) / (2 * den);
      assert 2 * den * q <= 2 * -num + den < 2 * den * q + 2 * den;
      -q
  }

  /** Ruby's `Float#round` of the exact quotient: to the nearest integer,
      halves away from zero. */
  function RoundHalfAwayFromZero(num: int, den: int): (r: int)
    requires den != 0
  {
    if den > 0 then RoundRatio(num, den) else RoundRatio(-num, -den)
  }

  /** A night that is present and of non-zero length (it may be reversed). */
  predicate NonZeroNight(night: W.Option<Span>) {
    night.Some? && night.value.hi != night.value.lo
  }

  /** `percentage`: the duration as a rounded percentage of the night length.
      It raises when sunset or sunrise is missing, and when the night has
      zero length (the ratio is not a finite number). */
  function Percentage(sunToday: RiseTransitSet, sunTomorrow: RiseTransitSet,
                      d0: RiseTransitSet, d1: RiseTransitSet, d2: RiseTransitSet): (r: W.Result<int, InterferenceError>)
    ensures NightRange(sunToday, sunTomorrow).None? ==> r == W.Failure(MissingSunEvent)
    ensures r.Success? <==> NonZeroNight(NightRange(sunToday, sunTomorrow))
    ensures r.Failure? && NightRange(sunToday, sunTomorrow).Some? ==> r.error == ZeroLengthNight
    ensures r.Success? ==> 0 <= r.value <= 300
    ensures r.Success? ==>
      var night := NightRange(sunToday, sunTomorrow).value;
      var d := Duration(sunToday, sunTomorrow, d0, d1, d2).value;
      night.hi != night.lo &&
      (night.hi < night.lo ==> r.value == 0) &&
      (night.hi > night.lo ==>
        2 * r.value * (night.hi - night.lo) - (night.hi - night.lo) <= 200 * d < 2 * r.value * (night.hi - night.lo) + (night.hi - night.lo))
  {
    var night := NightRange(sunToday, sunTomorrow);
    if night.None? then W.Failure(MissingSunEvent)
    else
      var nightLength := night.value.hi - night.value.lo;
      var duration := Duration(sunToday, sunTomorrow, d0, d1, d2);
      if nightLength == 0 then W.Failure(ZeroLengthNight)
      else
        var p := RoundHalfAwayFromZero(100 * duration.value, nightLength);
        RoundedShare(duration.value, nightLength, p);
        W.Success(p)
  }

  /** The rounded percentage of a night taken by a Moon-up time of at most
      three night lengths (none at all when the night is reversed). */
  lemma RoundedShare(d: nat, len: int, p: int)
    requires len != 0 && d <= 3 * (if len > 0 then len else 0)
    requires p == RoundHalfAwayFromZero(100 * d, len)
    ensures 0 <= p <= 300
    ensures len < 0 ==> p == 0
    ensures len > 0 ==> 2 * p * len - len <= 200 * d < 2 * p * len + len
  {
    if len > 0 {
      assert 2 * p * len - len <= 200 * d < 2 * p * len + len;
      assert (601 - 2 * p) * len == 601 * len - 2 * p * len;
      NonNegativeFactor(601 - 2 * p, len);
      assert (2 * p + 1) * len == 2 * p * len + len;
      NonNegativeFactor(2 * p + 1, len);
    } else {
      assert d == 0;
    }
  }

  /** A product with a positive factor is non-negative only if the other
      factor is. */
  lemma NonNegativeFactor(x: int, len: int)
    requires len > 0 && x * len >= 0
    ensures x >= 0
  {
  }

  /** `interference`: the percentage's category, checking 0 first and falling
      back to `Full` for everything not matched, negative values included. */
  function CategoryOf(percentage: int): (c: Category)
    ensures c == None <==> percentage == 0
    ensures c == Full <==> percentage >= 100 || percentage < 0
    ensures 0 < percentage < 100 ==> Rank(c) == percentage / 25 + 1
  {
    if percentage == 0 then None
    else if 0 <= percentage < 25 then Low
    else if 25 <= percentage < 50 then Moderate
    else if 50 <= percentage < 75 then High
    else if 75 <= percentage < 100 then Extreme
    else Full
  }

  function Interference(sunToday: RiseTransitSet, sunTomorrow: RiseTransitSet,
                        d0: RiseTransitSet, d1: RiseTransitSet, d2: RiseTransitSet): (r: W.Result<Category, InterferenceError>)
    ensures r.Success? <==> Percentage(sunToday, sunTomorrow, d0, d1, d2).Success?
    ensures r.Success? <==> NonZeroNight(NightRange(sunToday, sunTomorrow))
    ensures r.Success? ==> r.value == CategoryOf(Percentage(sunToday, sunTomorrow, d0, d1, d2).value)
  {
    var p :- Percentage(sunToday, sunTomorrow, d0, d1, d2);
    W.Success(CategoryOf(p))
  }

  /** Over non-negative percentages the category never gets milder as the
      percentage grows; 0 is always `None`, 100 and above always `Full`. */
  lemma CategoryMonotone(p: int, q: int)
    requires 0 <= p <= q
    ensures Rank(CategoryOf(p)) <= Rank(CategoryOf(q))
    ensures p == 0 <==> CategoryOf(p) == None
    ensures q >= 100 ==> CategoryOf(q) == Full
  {
  }

  /** The category table read backwards: each level is exactly one band of
      percentages, and `Full` also takes every negative value. */
  lemma CategoryBands(p: int)
    ensures CategoryOf(p) == None <==> p == 0
    ensures CategoryOf(p) == Low <==> 1 <= p <= 24
    ensures CategoryOf(p) == Moderate <==> 25 <= p <= 49
    ensures CategoryOf(p) == High <==> 50 <= p <= 74
    ensures CategoryOf(p) == Extreme <==> 75 <= p <= 99
    ensures CategoryOf(p) == Full <==> p >= 100 || p < 0
  {
  }

  /** A night from 18:46 to 05:14 (628 min) with the Moon up from 15:47 to
      22:14: 208 min of overlap, 33 percent, moderate. */
  lemma MoonUpEarlyEveningExample()
    ensures
      var sunToday := RiseTransitSet(W.Some(6 * 3600), W.None, W.Some(18 * 3600 + 46 * 60));
      var sunTomorrow := RiseTransitSet(W.Some(86400 + 5 * 3600 + 14 * 60), W.None, W.None);
      var d0 := RiseTransitSet(W.Some(15 * 3600 + 47 * 60), W.None, W.Some(22 * 3600 + 14 * 60));
      var d1 := RiseTransitSet(W.Some(86400 + 16 * 3600 + 50 * 60), W.None, W.Some(86400 + 23 * 3600 + 1 * 60));
      var d2 := RiseTransitSet(W.Some(2 * 86400 + 17 * 3600 + 58 * 60), W.None, W.None);
      Duration(sunToday, sunTomorrow, d0, d1, d2) == W.Success(208 * 60) &&
      Percentage(sunToday, sunTomorrow, d0, d1, d2) == W.Success(33) &&
      Interference(sunToday, sunTomorrow, d0, d1, d2) == W.Success(Moderate)
  {
  }
}
