/** The ephemeris results the core consumes, as plain values: the external
    rise/transit/set and twilight calculators are not modelled, their answers
    are inputs. Instants are integer seconds; an absent instant is `None`. */
module Ephemeris {
  import opened Wrappers

  /** Rising, transit and setting of one body on one calendar date; any of
      them may be missing (circumpolar or never-rising body). */
  datatype RiseTransitSet = RiseTransitSet(rising: Option<int>, transit: Option<int>, setting: Option<int>)

  /** Twilight instants of one calendar date: the evening ones start the
      night of that date, the morning ones end the night before it. */
  datatype Twilight = Twilight(
    eveningCivil: Option<int>,
    eveningAstronomical: Option<int>,
    morningCivil: Option<int>,
    morningAstronomical: Option<int>)
}
