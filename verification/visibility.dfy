/** The visibility evaluator: whether a body can be seen at some point of the
    night that starts on a given evening. Rise/set and twilight instants come
    from the ephemeris as optional integer seconds; this module only combines
    them. */
module Visibility {
  import opened Wrappers
  import opened TimeRanges
  import opened Ephemeris

  /** The bodies the evaluator is asked about; a Messier object is `DeepSky`. */
  datatype Body = Mercury | Venus | Mars | Jupiter | Saturn | Uranus | Neptune | Moon | DeepSky

  /** Which twilight bounds the night. */
  datatype TwilightPolicy = Civil | Astronomical

  /** Mercury and Venus are bright and close to the Sun, so civil twilight
      already ends their glare; every other body waits for astronomical night. */
  function PolicyFor(body: Body): (p: TwilightPolicy)
    ensures p == Civil <==> body in {Mercury, Venus}
  {
    if body == Mercury || body == Venus then Civil else Astronomical
  }

  predicate AllTwilightsPresent(today: Twilight, tomorrow: Twilight) {
    today.eveningCivil.Some? && today.eveningAstronomical.Some? &&
    tomorrow.morningCivil.Some? && tomorrow.morningAstronomical.Some?
  }

  /** The night window from this evening's twilight to next morning's, under
      `policy`. It is absent unless all four twilight instants exist, even
      though only two of them bound the window. */
  function NightWindow(policy: TwilightPolicy, today: Twilight, tomorrow: Twilight): (night: Option<TimeRange>)
    ensures night.Some? <==> AllTwilightsPresent(today, tomorrow)
    ensures night.Some? ==> night.value.Bounded?
    ensures night.Some? && policy == Civil ==>
      night.value.lo == today.eveningCivil.value && night.value.hi == tomorrow.morningCivil.value
    ensures night.Some? && policy == Astronomical ==>
      night.value.lo == today.eveningAstronomical.value && night.value.hi == tomorrow.morningAstronomical.value
  {
    if !AllTwilightsPresent(today, tomorrow) then None
    else if policy == Civil then Some(Bounded(today.eveningCivil.value, tomorrow.morningCivil.value))
    else Some(Bounded(today.eveningAstronomical.value, tomorrow.morningAstronomical.value))
  }

  function Night(body: Body, today: Twilight, tomorrow: Twilight): Option<TimeRange> {
    NightWindow(PolicyFor(body), today, tomorrow)
  }

  /** The span during which the body is up, starting with today's rising.
      Absent unless today's rising and setting both exist. When the body sets
      after rising the same day it is `[rising, setting]`; otherwise the body
      is taken to set tomorrow, and with no setting tomorrow the range is
      endless. Tomorrow's setting is not compared with today's rising. */
  function VisibilityRange(today: RiseTransitSet, tomorrow: RiseTransitSet): (range: Option<TimeRange>)
    ensures range.Some? <==> today.rising.Some? && today.setting.Some?
    ensures range.Some? ==> range.value.lo == today.rising.value
    ensures range.Some? && today.rising.value < today.setting.value ==>
      range.value == Bounded(today.rising.value, today.setting.value)
    ensures range.Some? && today.rising.value >= today.setting.value ==>
      EndOf(range.value) == tomorrow.setting
  {
    if today.rising.None? || today.setting.None? then None
    else if today.rising.value < today.setting.value then
      Some(Bounded(today.rising.value, today.setting.value))
    else if tomorrow.setting.Some? then
      Some(Bounded(today.rising.value, tomorrow.setting.value))
    else
      Some(Endless(today.rising.value))
  }

  /** The verdict from the pieces: the up-range overlaps the night, or the
      night covers tomorrow's rising. */
  predicate VisibleIn(range: Option<TimeRange>, night: Option<TimeRange>, tomorrowRising: Option<int>) {
    range.Some? && night.Some? &&
    (Overlaps(range.value, night.value) || Covers(night.value, tomorrowRising))
  }

  /** `visible?` under an explicit twilight policy. */
  function VisibleUnder(policy: TwilightPolicy, todayRts: RiseTransitSet, tomorrowRts: RiseTransitSet,
                        today: Twilight, tomorrow: Twilight): (visible: bool)
    ensures !AllTwilightsPresent(today, tomorrow) ==> !visible
    ensures todayRts.rising.None? || todayRts.setting.None? ==> !visible
  {
    VisibleIn(VisibilityRange(todayRts, tomorrowRts), NightWindow(policy, today, tomorrow), tomorrowRts.rising)
  }

  /** `visible?` for a body: its twilight policy picks the night. */
  function Visible(body: Body, todayRts: RiseTransitSet, tomorrowRts: RiseTransitSet,
                   today: Twilight, tomorrow: Twilight): (visible: bool)
    ensures visible ==> AllTwilightsPresent(today, tomorrow)
    ensures visible ==> todayRts.rising.Some? && todayRts.setting.Some?
  {
    VisibleUnder(PolicyFor(body), todayRts, tomorrowRts, today, tomorrow)
  }

  /** What the verdict means, instant by instant: with a rise/set range and a
      night window both defined, the body is visible exactly when some instant
      of the night falls in its up-range, or tomorrow's rising falls in the
      night. */
  lemma VisibleIffSomeInstant(policy: TwilightPolicy, todayRts: RiseTransitSet, tomorrowRts: RiseTransitSet,
                              today: Twilight, tomorrow: Twilight)
    ensures VisibleUnder(policy, todayRts, tomorrowRts, today, tomorrow) <==>
      var range := VisibilityRange(todayRts, tomorrowRts);
      var night := NightWindow(policy, today, tomorrow);
      range.Some? && night.Some? &&
      ((exists t :: Contains(night.value, t) && Contains(range.value, t)) ||
       (tomorrowRts.rising.Some? && Contains(night.value, tomorrowRts.rising.value)))
  {
    var range := VisibilityRange(todayRts, tomorrowRts);
    var night := NightWindow(policy, today, tomorrow);
    if range.Some? && night.Some? {
      OverlapsIffCommonInstant(range.value, night.value);
      if Overlaps(range.value, night.value) {
        var t :| Contains(range.value, t) && Contains(night.value, t);
        assert Contains(night.value, t) && Contains(range.value, t);
      }
    }
  }

  /** Enlarging the night window never turns a positive verdict negative. */
  lemma VisibleInMonotone(range: Option<TimeRange>, night: TimeRange, wider: TimeRange, tomorrowRising: Option<int>)
    requires Within(night, wider)
    ensures VisibleIn(range, Some(night), tomorrowRising) ==> VisibleIn(range, Some(wider), tomorrowRising)
  {
    if range.Some? {
      OverlapsMonotone(range.value, night, wider);
      OverlapsSymmetric(range.value, night);
      OverlapsSymmetric(range.value, wider);
    }
  }

  /** Civil twilight ends earlier in the evening and begins later in the
      morning than astronomical twilight. */
  predicate TwilightsOrdered(today: Twilight, tomorrow: Twilight) {
    AllTwilightsPresent(today, tomorrow) &&
    today.eveningCivil.value <= today.eveningAstronomical.value &&
    tomorrow.morningAstronomical.value <= tomorrow.morningCivil.value
  }

  /** With the usual order of twilights the civil night contains the
      astronomical one, so a body seen under the astronomical policy would
      also be seen under the civil one. */
  lemma AstronomicalVisibleImpliesCivilVisible(todayRts: RiseTransitSet, tomorrowRts: RiseTransitSet,
                                               today: Twilight, tomorrow: Twilight)
    requires TwilightsOrdered(today, tomorrow)
    ensures VisibleUnder(Astronomical, todayRts, tomorrowRts, today, tomorrow) ==>
            VisibleUnder(Civil, todayRts, tomorrowRts, today, tomorrow)
  {
    var astro := NightWindow(Astronomical, today, tomorrow);
    var civil := NightWindow(Civil, today, tomorrow);
    VisibleInMonotone(VisibilityRange(todayRts, tomorrowRts), astro.value, civil.value, tomorrowRts.rising);
  }

  /** A body whose rising is absent today is invisible even when tomorrow's
      rising falls inside the night. */
  lemma NoRisingTodayMeansInvisible(body: Body, setting: Option<int>, tomorrowRts: RiseTransitSet,
                                    today: Twilight, tomorrow: Twilight)
    ensures !Visible(body, RiseTransitSet(None, None, setting), tomorrowRts, today, tomorrow)
  {
  }

  /** Mercury up from 09:00 to 18:30 on a night whose civil twilight ends at 17:50 and
      astronomical twilight at 18:55: visible under Mercury's civil policy,
      not under the astronomical one another body would get. */
  lemma MercuryPolicyExample()
    ensures
      var today := Twilight(Some(17 * 3600 + 50 * 60), Some(18 * 3600 + 55 * 60), Some(7 * 3600), Some(6 * 3600));
      var tomorrow := Twilight(Some(86400 + 17 * 3600 + 51 * 60), Some(86400 + 18 * 3600 + 56 * 60),
                               Some(86400 + 7 * 3600 + 55 * 60), Some(86400 + 6 * 3600 + 50 * 60));
      var todayRts := RiseTransitSet(Some(9 * 3600), Some(13 * 3600), Some(18 * 3600 + 30 * 60));
      var tomorrowRts := RiseTransitSet(Some(86400 + 9 * 3600), Some(86400 + 13 * 3600), Some(86400 + 18 * 3600 + 31 * 60));
      Visible(Mercury, todayRts, tomorrowRts, today, tomorrow) &&
      !Visible(Mars, todayRts, tomorrowRts, today, tomorrow)
  {
  }
}
