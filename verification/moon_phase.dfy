/** The Moon's phase name from its phase angle and its age. The phase angle
    (0 at full moon, 180 at new moon) is shifted by half a turn and located
    among fixed ranges of degrees, tried in the order crescent, quarter,
    gibbous, full; the age, in days since the last new moon, decides
    between the waxing and the waning name of a crescent, quarter or
    gibbous Moon. Angles and ages are exact reals here. */
module MoonPhase {

  datatype PhaseName =
    NewMoon | WaxingCrescent | FirstQuarter | WaxingGibbous |
    FullMoon | WaningGibbous | LastQuarter | WaningCrescent

  /** Which range, in the order they are tried, holds the shifted angle. */
  datatype Band = Crescent | Quarter | Gibbous | Full | New

  const SynodicMonthDays: real := 29.530588853
  const HalfSynodicPeriod: real := SynodicMonthDays / 2.0

  /** `angle.between?(lo, hi)`: both ends included. */
  predicate Between(angle: real, lo: real, hi: real) {
    lo <= angle <= hi
  }

  predicate InCrescentRanges(angle: real) {
    Between(angle, 12.0, 81.0) || Between(angle, 279.0, 348.0)
  }

  predicate InQuarterRanges(angle: real) {
    Between(angle, 81.0, 99.0) || Between(angle, 261.0, 279.0)
  }

  predicate InGibbousRanges(angle: real) {
    Between(angle, 99.0, 168.0) || Between(angle, 192.0, 261.0)
  }

  predicate InFullMoonRange(angle: real) {
    Between(angle, 168.0, 192.0)
  }

  /** The first range list, in the order tried, that holds the angle. */
  function BandOf(angle: real): Band {
    if InCrescentRanges(angle) then Crescent
    else if InQuarterRanges(angle) then Quarter
    else if InGibbousRanges(angle) then Gibbous
    else if InFullMoonRange(angle) then Full
    else New
  }

  /** `current_phase_name`: the band of `phase_angle + 180`; before half a
      synodic month of age a crescent, quarter or gibbous Moon is waxing,
      after it waning. */
  function CurrentPhaseName(phaseAngle: real, age: real): (name: PhaseName)
    ensures name == FullMoon <==> BandOf(phaseAngle + 180.0) == Full
    ensures name == NewMoon <==> BandOf(phaseAngle + 180.0) == New
    ensures name == WaxingCrescent || name == WaningCrescent <==> BandOf(phaseAngle + 180.0) == Crescent
    ensures name == FirstQuarter || name == LastQuarter <==> BandOf(phaseAngle + 180.0) == Quarter
    ensures name == WaxingGibbous || name == WaningGibbous <==> BandOf(phaseAngle + 180.0) == Gibbous
    ensures IsWaxingName(name) ==> age <= HalfSynodicPeriod
    ensures IsWaningName(name) ==> age > HalfSynodicPeriod
  {
    var waxing := age <= HalfSynodicPeriod;
    match BandOf(phaseAngle + 180.0)
    case Crescent => if waxing then WaxingCrescent else WaningCrescent
    case Quarter => if waxing then FirstQuarter else LastQuarter
    case Gibbous => if waxing then WaxingGibbous else WaningGibbous
    case Full => FullMoon
    case New => NewMoon
  }

  /** The names a waxing Moon can have before full. */
  predicate IsWaxingName(name: PhaseName) {
    name == WaxingCrescent || name == FirstQuarter || name == WaxingGibbous
  }

  predicate IsWaningName(name: PhaseName) {
    name == WaningGibbous || name == LastQuarter || name == WaningCrescent
  }

  /** The ranges as disjoint intervals: a boundary shared by two ranges (81,
      99, 168, 192, 261, 279) belongs to the range tried first, and every
      angle outside the ranges, above 348 or below 12, is a new moon. */
  lemma BandIntervals(angle: real)
    ensures BandOf(angle) == Crescent <==> (12.0 <= angle <= 81.0 || 279.0 <= angle <= 348.0)
    ensures BandOf(angle) == Quarter <==> (81.0 < angle <= 99.0 || 261.0 <= angle < 279.0)
    ensures BandOf(angle) == Gibbous <==> (99.0 < angle <= 168.0 || 192.0 <= angle < 261.0)
    ensures BandOf(angle) == Full <==> 168.0 < angle < 192.0
    ensures BandOf(angle) == New <==> (angle < 12.0 || angle > 348.0)
  {
  }

  /** The age splits each of the crescent, quarter and gibbous bands into
      a waxing name (age at most half a synodic month) and a waning one. */
  lemma WaxingIffYoung(phaseAngle: real, age: real)
    requires BandOf(phaseAngle + 180.0) != Full && BandOf(phaseAngle + 180.0) != New
    ensures IsWaxingName(CurrentPhaseName(phaseAngle, age)) <==> age <= HalfSynodicPeriod
    ensures IsWaningName(CurrentPhaseName(phaseAngle, age)) <==> age > HalfSynodicPeriod
  {
  }

  /** Full and new moon do not depend on the age. */
  lemma FullAndNewIgnoreAge(phaseAngle: real, age1: real, age2: real)
    requires BandOf(phaseAngle + 180.0) == Full || BandOf(phaseAngle + 180.0) == New
    ensures CurrentPhaseName(phaseAngle, age1) == CurrentPhaseName(phaseAngle, age2)
  {
  }

  /** How far the Moon is from full, as the band of a shifted angle from 180
      to 360 degrees: full, then gibbous, quarter, crescent and new. */
  function DistanceFromFull(band: Band): nat {
    match band
    case Full => 0
    case Gibbous => 1
    case Quarter => 2
    case Crescent => 3
    case New => 4
  }

  /** For a phase angle from 0 to 180 degrees the shifted angle lies from 180
      to 360, so only the second range of each pair can hold it, and the
      bands follow each other without coming back as the phase angle grows. */
  lemma HalfTurnBands(phaseAngle: real, later: real)
    requires 0.0 <= phaseAngle <= later <= 180.0
    ensures !Between(phaseAngle + 180.0, 12.0, 81.0) && !Between(phaseAngle + 180.0, 81.0, 99.0)
    ensures !Between(phaseAngle + 180.0, 99.0, 168.0)
    ensures DistanceFromFull(BandOf(phaseAngle + 180.0)) <= DistanceFromFull(BandOf(later + 180.0))
  {
    BandIntervals(phaseAngle + 180.0);
    BandIntervals(later + 180.0);
  }

  /** A phase angle of 0 is a full moon and one of 180 a new moon, whatever
      the age; at 90 degrees and eight days of age the Moon is in its first
      quarter, at twenty days in its last. */
  lemma PhaseExamples()
    ensures CurrentPhaseName(0.0, 14.0) == FullMoon && CurrentPhaseName(180.0, 1.0) == NewMoon
    ensures CurrentPhaseName(90.0, 8.0) == FirstQuarter && CurrentPhaseName(90.0, 20.0) == LastQuarter
  {
  }
}
