/** Two helpers of a Messier catalogue entry: the instrument needed to see
    it, from its apparent magnitude (brighter objects have smaller
    magnitudes), and its label `M<number>`. */
module MessierObject {
  import opened Wrappers
  import opened Decimal

  datatype Tool = NakedEye | Binoculars | Telescope

  const NakedEyeMagnitudeLimit: real := 4.0
  const BinocularsMagnitudeLimit: real := 6.0

  /** `visible_with`: the naked eye up to magnitude 4, a telescope from
      magnitude 6, binoculars strictly between. */
  function VisibleWith(magnitude: real): (tool: Tool)
    ensures tool == NakedEye <==> magnitude <= NakedEyeMagnitudeLimit
    ensures tool == Telescope <==> magnitude >= BinocularsMagnitudeLimit
    ensures tool == Binoculars <==> NakedEyeMagnitudeLimit < magnitude < BinocularsMagnitudeLimit
  {
    if magnitude <= NakedEyeMagnitudeLimit then NakedEye
    else if magnitude >= BinocularsMagnitudeLimit then Telescope
    else Binoculars
  }

  /** How much instrument a tool is. */
  function Power(tool: Tool): nat {
    match tool
    case NakedEye => 0
    case Binoculars => 1
    case Telescope => 2
  }

  /** A fainter object never needs less instrument. */
  lemma VisibleWithMonotone(brighter: real, fainter: real)
    requires brighter <= fainter
    ensures Power(VisibleWith(brighter)) <= Power(VisibleWith(fainter))
  {
  }

  /** Magnitudes 3.5, 5 and 7 call for the naked eye, binoculars and a
      telescope. */
  lemma VisibleWithExamples()
    ensures VisibleWith(3.5) == NakedEye && VisibleWith(5.0) == Binoculars && VisibleWith(7.0) == Telescope
  {
  }

  /** `messier_number`: `M` followed by the number; a missing number
      interpolates as nothing. */
  function MessierNumber(number: Option<int>): (name: string)
    ensures |name| >= 1 && name[0] == 'M'
    ensures number.None? <==> name == "M"
  {
    "M" + (if number.Some? then IntToString(number.value) else "")
  }

  /** The label of a catalogue number reads back as that number. */
  lemma MessierNumberRoundTrip(number: nat)
    ensures var name := MessierNumber(Some(number));
      AllDigits(name[1..]) && DigitsValue(name[1..]) == number
  {
    var name := MessierNumber(Some(number));
    assert name[1..] == NatToString(number);
    NatToStringRoundTrip(number);
  }

  /** Number 42 is labelled "M42". */
  lemma MessierNumberExample()
    ensures MessierNumber(Some(42)) == "M42"
  {
    TwoDigitNumeral(42);
  }
}
