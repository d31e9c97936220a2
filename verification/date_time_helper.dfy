/** Human-readable durations and the placeholder for a missing instant. A
    duration is a whole number of seconds; it is shown as hours and minutes
    from one hour on, as minutes and seconds below that, with a leading `-`
    when negative. The unit symbols are those of the English locale. */
module DateTimeHelper {
  import opened Wrappers
  import opened Decimal
  import Words

  const HourSymbol := "h"
  const MinuteSymbol := "m"
  const SecondSymbol := "s"

  /** What `nillable_datetime` shows for a missing instant: the empty set sign. */
  const EmptySetSign := "\U{2205}"

  /** `nillable_datetime`: the empty set sign for `nil`, otherwise the
      localised instant, which is left to `localize`. */
  function NillableDatetime(datetime: Option<int>, localize: int -> string): (text: string)
    ensures datetime.None? ==> text == EmptySetSign
    ensures datetime.Some? ==> text == localize(datetime.value)
  {
    match datetime
    case None => EmptySetSign
    case Some(t) => localize(t)
  }

  function Abs(n: int): nat {
    if n < 0 then -n else n
  }

  /** Whole hours, minutes and seconds of a duration's magnitude. */
  datatype ClockParts = ClockParts(hours: nat, minutes: nat, seconds: nat)

  /** `abs / 3600`, `(abs % 3600) / 60` and `abs % 60`: the magnitude split
      into hours, minutes below 60 and seconds below 60. */
  function Clock(duration: int): (c: ClockParts)
    ensures 3600 * c.hours + 60 * c.minutes + c.seconds == Abs(duration)
    ensures c.minutes < 60 && c.seconds < 60
  {
    var a := Abs(duration);
    ClockParts(a / 3600, (a % 3600) / 60, a % 60)
  }

  /** The split is the only one with minutes and seconds below 60. */
  lemma ClockUnique(duration: int, c: ClockParts)
    requires 3600 * c.hours + 60 * c.minutes + c.seconds == Abs(duration)
    requires c.minutes < 60 && c.seconds < 60
    ensures Clock(duration) == c
  {
    var d := Clock(duration);
    assert 60 * c.minutes + c.seconds < 3600;
    assert 60 * d.minutes + d.seconds < 3600;
    assert c.hours == d.hours;
    assert 60 * c.minutes + c.seconds == 60 * d.minutes + d.seconds;
  }

  /** `duration_to_human`: `"<sign><H>h <M>m"` from one hour on, seconds
      dropped; `"<sign><M>m <S>s"` below one hour. */
  function DurationToHuman(duration: int): (text: string)
    ensures |text| > 0 && (text[0] == '-' <==> duration < 0)
  {
    var sign := if duration < 0 then "-" else "";
    var c := Clock(duration);
    if c.hours > 0 then
      sign + NatToString(c.hours) + HourSymbol + " " + NatToString(c.minutes) + MinuteSymbol
    else
      sign + NatToString(c.minutes) + MinuteSymbol + " " + NatToString(c.seconds) + SecondSymbol
  }

  /** A duration text read back: the sign, then a numeral with its unit,
      a space, and a second numeral with its unit. */
  datatype Reading = Reading(negative: bool, major: nat, majorUnit: string, minor: nat, minorUnit: string)

  /** A numeral followed by a one-character unit. */
  predicate IsQuantity(word: string) {
    |word| >= 2 && AllDigits(word[..|word| - 1])
  }

  function ReadQuantity(word: string): (nat, string)
    requires IsQuantity(word)
  {
    (DigitsValue(word[..|word| - 1]), word[|word| - 1..])
  }

  /** Parses the shape `duration_to_human` writes; anything else is `None`. */
  function ReadDuration(text: string): Option<Reading> {
    var negative := |text| > 0 && text[0] == '-';
    var rest := if negative then text[1..] else text;
    var i := Words.FirstSpace(rest);
    if i == |rest| || !IsQuantity(rest[..i]) || !IsQuantity(rest[i + 1..]) then None
    else
      var (major, majorUnit) := ReadQuantity(rest[..i]);
      var (minor, minorUnit) := ReadQuantity(rest[i + 1..]);
      Some(Reading(negative, major, majorUnit, minor, minorUnit))
  }

  /** A numeral with its unit is one word and reads back as written. */
  lemma QuantityReads(n: nat, unit: char)
    requires unit != ' '
    ensures var word := NatToString(n) + [unit];
      IsQuantity(word) && ReadQuantity(word) == (n, [unit]) && Words.NoSpace(word) && word[0] != '-'
  {
    var word := NatToString(n) + [unit];
    assert word[..|word| - 1] == NatToString(n);
    NatToStringRoundTrip(n);
  }

  /** Two quantity words behind an optional minus sign read back as the
      sign and the two quantities. */
  lemma ReadWords(negative: bool, first: string, second: string)
    requires IsQuantity(first) && IsQuantity(second) && Words.NoSpace(first) && first[0] != '-'
    ensures ReadDuration((if negative then "-" else "") + (first + " " + second)) ==
      Some(Reading(negative, ReadQuantity(first).0, ReadQuantity(first).1,
                   ReadQuantity(second).0, ReadQuantity(second).1))
  {
    var rest := first + " " + second;
    var text := (if negative then "-" else "") + rest;
    assert (if negative then text[1..] else text) == rest;
    assert negative <==> |text| > 0 && text[0] == '-';
    Words.FirstSpaceAfter(first, second);
    assert rest[..|first|] == first && rest[|first| + 1..] == second;
  }

  /** The text of a duration as a sign followed by two words. */
  lemma Regroup(sign: string, a: string, u: string, b: string, v: string)
    ensures sign + a + u + " " + b + v == sign + ((a + u) + " " + (b + v))
  {
  }

  /** Two quantities with their units, behind an optional minus sign, read
      back as they were written. */
  lemma ReadQuantities(sign: string, major: nat, majorUnit: char, minor: nat, minorUnit: char)
    requires sign == "-" || sign == ""
    requires majorUnit != ' ' && minorUnit != ' '
    ensures ReadDuration(sign + ((NatToString(major) + [majorUnit]) + " " + (NatToString(minor) + [minorUnit]))) ==
      Some(Reading(sign == "-", major, [majorUnit], minor, [minorUnit]))
  {
    var first, second := NatToString(major) + [majorUnit], NatToString(minor) + [minorUnit];
    QuantityReads(major, majorUnit);
    QuantityReads(minor, minorUnit);
    ReadWords(sign == "-", first, second);
  }

  /** The text gives the duration back, but for the seconds dropped from an
      hour on: its sign, and hours and minutes (from one hour) or minutes
      and seconds (below one hour) that recompose the magnitude. */
  lemma DurationReadsBack(duration: int)
    ensures var r := ReadDuration(DurationToHuman(duration));
      r.Some? && (r.value.negative <==> duration < 0) && r.value.minor < 60 &&
      (Abs(duration) >= 3600 ==>
        r.value.majorUnit == HourSymbol && r.value.minorUnit == MinuteSymbol &&
        3600 * r.value.major + 60 * r.value.minor == Abs(duration) - Abs(duration) % 60) &&
      (Abs(duration) < 3600 ==>
        r.value.majorUnit == MinuteSymbol && r.value.minorUnit == SecondSymbol &&
        60 * r.value.major + r.value.minor == Abs(duration))
  {
    var c := Clock(duration);
    var sign := if duration < 0 then "-" else "";
    if c.hours > 0 {
      Regroup(sign, NatToString(c.hours), HourSymbol, NatToString(c.minutes), MinuteSymbol);
      ReadQuantities(sign, c.hours, 'h', c.minutes, 'm');
    } else {
      Regroup(sign, NatToString(c.minutes), MinuteSymbol, NatToString(c.seconds), SecondSymbol);
      ReadQuantities(sign, c.minutes, 'm', c.seconds, 's');
    }
  }

  /** The text of a negative duration is a minus sign in front of the text
      of its magnitude. */
  lemma NegatedDuration(duration: int)
    requires duration > 0
    ensures DurationToHuman(-duration) == "-" + DurationToHuman(duration)
  {
    assert Clock(-duration) == Clock(duration);
  }

  /** From one hour on the seconds are not shown: durations in the same
      minute read the same. */
  lemma SecondsDroppedFromAnHour(a: int, b: int)
    requires 3600 <= a && 3600 <= b && a / 60 == b / 60
    ensures DurationToHuman(a) == DurationToHuman(b)
  {
    var ca, cb := Clock(a), Clock(b);
    assert a == 60 * (a / 60) + a % 60 && b == 60 * (b / 60) + b % 60;
    assert 3600 * ca.hours + 60 * ca.minutes == 60 * (a / 60);
    assert 3600 * cb.hours + 60 * cb.minutes == 60 * (b / 60);
    ClockUnique(60 * (a / 60), ClockParts(ca.hours, ca.minutes, 0));
    ClockUnique(60 * (b / 60), ClockParts(cb.hours, cb.minutes, 0));
  }

  /** 3665 seconds read "1h 1m", 125 seconds "2m 5s" and -3665 seconds
      "-1h 1m". */
  lemma DurationExamples()
    ensures DurationToHuman(3665) == "1h 1m"
    ensures DurationToHuman(125) == "2m 5s"
    ensures DurationToHuman(-3665) == "-1h 1m"
  {
    assert Clock(3665) == ClockParts(1, 1, 5);
    assert Clock(125) == ClockParts(0, 2, 5);
    NegatedDuration(3665);
  }
}
