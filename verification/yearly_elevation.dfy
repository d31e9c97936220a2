/** A body's elevation at transit, sampled once a day over a year. Point i
    is day i counted from 1 January (day of the year i + 1) with the
    altitude at the i-th transit, negative altitudes shown as zero; the
    lowest, the highest and the current day's point are looked up in that
    series. The ephemeris is outside the model: the transit instants are an
    input sequence and the altitude at an instant is a function parameter. */
module YearlyElevation {
  import opened Wrappers

  /** A sample: day of the year (1 for 1 January), the date as its offset
      in days from 1 January, and the elevation in degrees. */
  datatype ElevationPoint = ElevationPoint(yday: int, date: int, elevation: real)

  /** There are fewer transit instants than samples: Caelus does not
      check this, and asking the ephemeris for the body at a missing instant
      fails. */
  datatype SeriesError = MissingTransit(dayOffset: nat)

  /** `elevation_at`: a positive altitude as it is, anything else as zero. */
  function ElevationAt(altitude: real): (elevation: real)
    ensures elevation >= 0.0
    ensures altitude > 0.0 ==> elevation == altitude
    ensures altitude <= 0.0 ==> elevation == 0.0
  {
    if altitude > 0.0 then altitude else 0.0
  }

  /** The point for day offset i. */
  function PointFor(i: nat, transits: seq<int>, altitude: int -> real): ElevationPoint
    requires i < |transits|
  {
    ElevationPoint(i + 1, i, ElevationAt(altitude(transits[i])))
  }

  /** A series of `samples` consecutive days from 1 January with
      elevations that are never negative. */
  predicate DailySeries(points: seq<ElevationPoint>, samples: nat) {
    |points| == samples &&
    forall i :: 0 <= i < |points| ==>
      points[i].yday == i + 1 && points[i].date == i && points[i].elevation >= 0.0
  }

  /** `data`: one point per day offset from 0 below `samples`, the
      elevation of point i taken at the i-th transit instant. */
  method Data(samples: nat, transits: seq<int>, altitude: int -> real)
    returns (series: Result<seq<ElevationPoint>, SeriesError>)
    ensures series.Failure? <==> |transits| < samples
    ensures series.Failure? ==> series.error == MissingTransit(|transits|)
    ensures series.Success? ==> DailySeries(series.value, samples)
    ensures series.Success? ==> forall i :: 0 <= i < samples ==>
      series.value[i].elevation == ElevationAt(altitude(transits[i]))
  {
    var points: seq<ElevationPoint> := [];
    var dayOffset := 0;
    while dayOffset < samples
      invariant dayOffset <= samples
      invariant dayOffset <= |transits|
      invariant |points| == dayOffset
      invariant forall i :: 0 <= i < dayOffset ==> points[i] == PointFor(i, transits, altitude)
    {
      if dayOffset >= |transits| {
        return Failure(MissingTransit(dayOffset));
      }
      points := points + [PointFor(dayOffset, transits, altitude)];
      dayOffset := dayOffset + 1;
    }
    return Success(points);
  }

  /** Point k is the lowest of the series and no earlier point is as low:
      the point `min_by` keeps. */
  predicate FirstMinimumAt(points: seq<ElevationPoint>, k: nat)
    requires k < |points|
  {
    (forall j :: 0 <= j < |points| ==> points[k].elevation <= points[j].elevation) &&
    (forall j :: 0 <= j < k ==> points[j].elevation > points[k].elevation)
  }

  /** Point k is the highest of the series and no earlier point is as high:
      the point `max_by` keeps. */
  predicate FirstMaximumAt(points: seq<ElevationPoint>, k: nat)
    requires k < |points|
  {
    (forall j :: 0 <= j < |points| ==> points[k].elevation >= points[j].elevation) &&
    (forall j :: 0 <= j < k ==> points[j].elevation < points[k].elevation)
  }

  /** `minimum`: nothing for an empty series, otherwise its first lowest
      point. */
  method Minimum(points: seq<ElevationPoint>) returns (lowest: Option<ElevationPoint>)
    ensures lowest.None? <==> |points| == 0
    ensures lowest.Some? ==>
      exists k :: 0 <= k < |points| && points[k] == lowest.value && FirstMinimumAt(points, k)
  {
    if |points| == 0 {
      return None;
    }
    var best := 0;
    var i := 1;
    while i < |points|
      invariant 1 <= i <= |points|
      invariant best < i
      invariant forall j :: 0 <= j < i ==> points[best].elevation <= points[j].elevation
      invariant forall j :: 0 <= j < best ==> points[j].elevation > points[best].elevation
    {
      if points[i].elevation < points[best].elevation {
        best := i;
      }
      i := i + 1;
    }
    return Some(points[best]);
  }

  /** `maximum`: nothing for an empty series, otherwise its first highest
      point. */
  method Maximum(points: seq<ElevationPoint>) returns (highest: Option<ElevationPoint>)
    ensures highest.None? <==> |points| == 0
    ensures highest.Some? ==>
      exists k :: 0 <= k < |points| && points[k] == highest.value && FirstMaximumAt(points, k)
  {
    if |points| == 0 {
      return None;
    }
    var best := 0;
    var i := 1;
    while i < |points|
      invariant 1 <= i <= |points|
      invariant best < i
      invariant forall j :: 0 <= j < i ==> points[best].elevation >= points[j].elevation
      invariant forall j :: 0 <= j < best ==> points[j].elevation < points[best].elevation
    {
      if points[i].elevation > points[best].elevation {
        best := i;
      }
      i := i + 1;
    }
    return Some(points[best]);
  }

  /** The first lowest point is one point: ties go to the earliest day. */
  lemma FirstMinimumUnique(points: seq<ElevationPoint>, k: nat, m: nat)
    requires k < |points| && m < |points|
    requires FirstMinimumAt(points, k) && FirstMinimumAt(points, m)
    ensures k == m
  {
    assert points[k].elevation == points[m].elevation;
  }

  /** The first highest point is one point: ties go to the earliest day. */
  lemma FirstMaximumUnique(points: seq<ElevationPoint>, k: nat, m: nat)
    requires k < |points| && m < |points|
    requires FirstMaximumAt(points, k) && FirstMaximumAt(points, m)
    ensures k == m
  {
    assert points[k].elevation == points[m].elevation;
  }

  /** The index of the first point from i on with the given day of the
      year, if any. */
  function FindYday(points: seq<ElevationPoint>, yday: int, i: nat): (found: Option<nat>)
    requires i <= |points|
    ensures found.Some? ==> i <= found.value < |points| && points[found.value].yday == yday
    ensures found.Some? ==> forall j :: i <= j < found.value ==> points[j].yday != yday
    ensures found.None? <==> forall j :: i <= j < |points| ==> points[j].yday != yday
    decreases |points| - i
  {
    if i == |points| then None
    else if points[i].yday == yday then Some(i)
    else FindYday(points, yday, i + 1)
  }

  /** `current`: the first point for the given day of the year, otherwise
      the first point of the series, and nothing for an empty series. */
  function Current(points: seq<ElevationPoint>, yday: int): (point: Option<ElevationPoint>)
    ensures point.None? <==> |points| == 0
    ensures point.Some? ==> point.value in points
    ensures (exists j :: 0 <= j < |points| && points[j].yday == yday) ==>
      exists k :: 0 <= k < |points| && point == Some(points[k]) && points[k].yday == yday &&
        forall j :: 0 <= j < k ==> points[j].yday != yday
    ensures (forall j :: 0 <= j < |points| ==> points[j].yday != yday) && |points| > 0 ==> point == Some(points[0])
  {
    match FindYday(points, yday, 0)
    case Some(k) => Some(points[k])
    case None => if |points| == 0 then None else Some(points[0])
  }

  /** In a daily series, a day of the year that was sampled is found at its
      offset; any other day falls back to 1 January. */
  lemma CurrentOfDailySeries(points: seq<ElevationPoint>, samples: nat, yday: int)
    requires DailySeries(points, samples) && samples > 0
    ensures 1 <= yday <= samples ==> Current(points, yday) == Some(points[yday - 1])
    ensures !(1 <= yday <= samples) ==> Current(points, yday) == Some(points[0])
  {
    if 1 <= yday <= samples {
      assert points[yday - 1].yday == yday;
      var found := FindYday(points, yday, 0);
      assert found.Some?;
      assert points[found.value].yday == found.value + 1;
    } else {
      assert forall j :: 0 <= j < |points| ==> points[j].yday != yday;
    }
  }

  /** With the default 365 samples, 31 December of a leap year (day 366) is
      not in the series and gets the elevation of 1 January. */
  lemma LeapYearLastDay(points: seq<ElevationPoint>)
    requires DailySeries(points, 365)
    ensures Current(points, 366) == Some(points[0])
  {
    CurrentOfDailySeries(points, 365, 366);
  }
}
