/** The location form's UTC-offset helpers: the validator applied to a
    submitted offset, and the list of offsets the form offers, each shown
    and submitted as a string `±HH:MM`. */
module UtcOffsets {
  import opened Wrappers
  import opened Decimal

  /** A form option: the text shown and the value submitted. */
  datatype OffsetOption = OffsetOption(display: string, value: string)

  /** Minutes the validator accepts after the colon. */
  predicate ValidMinute(minute: int) {
    minute == 0 || minute == 15 || minute == 30 || minute == 45
  }

  /** The six characters from `k` read `[+-](0[0-9]|1[0-2]):(00|15|30|45)`. */
  predicate OffsetAt(s: string, k: nat)
    requires k + 6 <= |s|
  {
    (s[k] == '+' || s[k] == '-') &&
    ((s[k + 1] == '0' && IsDigit(s[k + 2])) || (s[k + 1] == '1' && '0' <= s[k + 2] <= '2')) &&
    s[k + 3] == ':' &&
    ((s[k + 4] == '0' && s[k + 5] == '0') || (s[k + 4] == '1' && s[k + 5] == '5') ||
     (s[k + 4] == '3' && s[k + 5] == '0') || (s[k + 4] == '4' && s[k + 5] == '5'))
  }

  /** Ruby's `^` matches at the start of the string or after a newline, `$`
      at the end of the string or before a newline. */
  predicate LineStart(s: string, k: nat)
    requires k <= |s|
  {
    k == 0 || s[k - 1] == '\n'
  }

  predicate LineEnd(s: string, k: nat)
    requires k <= |s|
  {
    k == |s| || s[k] == '\n'
  }

  /** A whole line of `s`, starting at `k`, is an offset. */
  predicate OffsetLineAt(s: string, k: nat) {
    k + 6 <= |s| && LineStart(s, k) && LineEnd(s, k + 6) && OffsetAt(s, k)
  }

  predicate IsSpace(c: char) {
    c == ' ' || c == '\t' || c == '\n' || c == '\U{B}' || c == '\U{C}' || c == '\r'
  }

  /** `blank?` for a string: empty or white space only. */
  predicate Blank(s: string) {
    forall i :: 0 <= i < |s| ==> IsSpace(s[i])
  }

  /** `valid_utc_offset?` as written: a missing or blank value is rejected;
      otherwise the value is accepted when ANY of its lines is an offset,
      because the pattern is anchored with the line anchors `^` and `$`. */
  function ValidUtcOffset(input: Option<string>): (valid: bool)
    ensures valid ==> input.Some? && |input.value| >= 6 && !Blank(input.value)
  {
    input.Some? && !Blank(input.value) && exists k: nat | k <= |input.value| :: OffsetLineAt(input.value, k)
  }

  /** The whole string is one offset. */
  predicate StrictOffset(s: string) {
    |s| == 6 && OffsetAt(s, 0)
  }

  /** The validator with the whole string anchored (`\A` and `\z`): the
      value must be exactly one offset. */
  predicate StrictValidUtcOffset(input: Option<string>) {
    input.Some? && StrictOffset(input.value)
  }

  /** The sign of an offset: `-` west of UTC, `+` otherwise. */
  function SignChar(negative: bool): char {
    if negative then '-' else '+'
  }

  /** `±HH:MM` for a sign, an hour and a minute below 100. */
  function OffsetString(negative: bool, hour: nat, minute: nat): (s: string)
    requires hour < 100 && minute < 100
    ensures |s| == 6
  {
    [SignChar(negative), DigitChar(hour / 10), DigitChar(hour % 10), ':', DigitChar(minute / 10), DigitChar(minute % 10)]
  }

  /** The hour and the minute of a valid offset, read from its digits. */
  function OffsetHour(s: string): nat
    requires StrictOffset(s)
  {
    10 * DigitValue(s[1]) + DigitValue(s[2])
  }

  function OffsetMinute(s: string): nat
    requires StrictOffset(s)
  {
    10 * DigitValue(s[4]) + DigitValue(s[5])
  }

  /** The signed number of minutes an offset string stands for. */
  function OffsetMinutes(s: string): int
    requires StrictOffset(s)
  {
    var magnitude := 60 * OffsetHour(s) + OffsetMinute(s);
    if s[0] == '-' then -magnitude else magnitude
  }

  /** An hour from 0 to 12 and one of the four minutes always make a valid
      offset, which reads back as the signed minutes it was made from. */
  lemma OffsetStringValid(negative: bool, hour: nat, minute: nat)
    requires hour <= 12 && ValidMinute(minute)
    ensures StrictOffset(OffsetString(negative, hour, minute))
    ensures OffsetMinutes(OffsetString(negative, hour, minute)) ==
      if negative then -(60 * hour + minute) else 60 * hour + minute
  {
    var s := OffsetString(negative, hour, minute);
    assert OffsetHour(s) == hour;
    assert OffsetMinute(s) == minute;
  }

  /** Every strictly valid value is one of those strings: the strict
      validator accepts exactly the offsets `±HH:MM` with HH at most 12 and
      MM one of 00, 15, 30 and 45. */
  lemma StrictOffsetParses(s: string)
    requires StrictOffset(s)
    ensures OffsetHour(s) <= 12 && ValidMinute(OffsetMinute(s))
    ensures s == OffsetString(s[0] == '-', OffsetHour(s), OffsetMinute(s))
  {
    var t := OffsetString(s[0] == '-', OffsetHour(s), OffsetMinute(s));
    assert t[1] == s[1] && t[2] == s[2];
    assert t[4] == s[4] && t[5] == s[5];
  }

  /** The corrected validator accepts exactly the offsets `±HH:MM` with HH at
      most 12 and MM one of 00, 15, 30 and 45, and nothing else. */
  lemma StrictValidAcceptsExactlyOffsets(input: Option<string>)
    ensures StrictValidUtcOffset(input) <==>
      input.Some? &&
      exists negative: bool, hour: nat, minute: nat | hour <= 12 && ValidMinute(minute) ::
        input.value == OffsetString(negative, hour, minute)
  {
    if StrictValidUtcOffset(input) {
      var s := input.value;
      StrictOffsetParses(s);
      assert s == OffsetString(s[0] == '-', OffsetHour(s), OffsetMinute(s));
    }
    if input.Some? &&
       exists negative: bool, hour: nat, minute: nat | hour <= 12 && ValidMinute(minute) ::
         input.value == OffsetString(negative, hour, minute) {
      var negative: bool, hour: nat, minute: nat :| hour <= 12 && ValidMinute(minute) &&
        input.value == OffsetString(negative, hour, minute);
      OffsetStringValid(negative, hour, minute);
    }
  }

  /** For a value without a newline the validator as written and the strict
      one agree. */
  lemma SingleLineAgrees(s: string)
    requires '\n' !in s
    ensures ValidUtcOffset(Some(s)) <==> StrictValidUtcOffset(Some(s))
  {
    if StrictOffset(s) {
      assert OffsetLineAt(s, 0);
      assert !IsSpace(s[0]);
    }
    if ValidUtcOffset(Some(s)) {
      assert forall i :: 0 <= i < |s| ==> s[i] != '\n' by {
        forall i | 0 <= i < |s|
          ensures s[i] != '\n'
        {
          assert s[i] in s;
        }
      }
      var k: nat :| k <= |s| && OffsetLineAt(s, k);
      assert k == 0 && k + 6 == |s|;
    }
  }

  /** Whatever the strict validator accepts, the one as written accepts too. */
  lemma StrictImpliesValid(s: string)
    requires StrictOffset(s)
    ensures ValidUtcOffset(Some(s))
  {
    assert OffsetLineAt(s, 0);
    assert !IsSpace(s[0]);
  }

  /** The validator as written accepts a value with a second line after an
      arbitrary first one; the strict validator does not. */
  /** `t` is a whole line of `p + t + q`: the text before it is empty or
      ends with a newline, and the text after it is empty or starts with
      one. */
  predicate WholeLine(p: string, q: string) {
    (p == [] || p[|p| - 1] == '\n') && (q == [] || q[0] == '\n')
  }

  /** The offset line at `k` cuts the value into the text before it, the
      offset and the text after it. */
  lemma LineSplits(s: string, k: nat)
    requires OffsetLineAt(s, k)
    ensures s == s[..k] + s[k..k + 6] + s[k + 6..]
    ensures StrictOffset(s[k..k + 6]) && WholeLine(s[..k], s[k + 6..])
  {
    assert OffsetAt(s[k..k + 6], 0);
  }

  /** An offset that is a whole line of a value is an offset line of it, and
      the value is not blank. */
  lemma LineJoins(p: string, t: string, q: string)
    requires StrictOffset(t) && WholeLine(p, q)
    ensures OffsetLineAt(p + t + q, |p|)
    ensures !Blank(p + t + q)
  {
    var s := p + t + q;
    assert s[|p|..|p| + 6] == t;
    assert s[|p|] == t[0] && (t[0] == '+' || t[0] == '-');
  }

  /** A value, of one line or of many, passes `valid_utc_offset?` exactly
      when one of its lines, whole, is an offset. */
  lemma AnyLineAccepted(s: string)
    ensures ValidUtcOffset(Some(s)) <==>
      exists p: string, t: string, q: string :: s == p + t + q && StrictOffset(t) && WholeLine(p, q)
  {
    if ValidUtcOffset(Some(s)) {
      var k: nat :| k <= |s| && OffsetLineAt(s, k);
      LineSplits(s, k);
    }
    if exists p: string, t: string, q: string :: s == p + t + q && StrictOffset(t) && WholeLine(p, q) {
      var p: string, t: string, q: string :| s == p + t + q && StrictOffset(t) && WholeLine(p, q);
      LineJoins(p, t, q);
    }
  }

  lemma AcceptsOffsetOnLaterLine()
    ensures ValidUtcOffset(Some("junk\n+05:30"))
    ensures !StrictValidUtcOffset(Some("junk\n+05:30"))
  {
    var s := "junk\n+05:30";
    assert OffsetLineAt(s, 5);
    assert !IsSpace(s[0]);
  }

  /** Offsets the location form accepts. */
  lemma AcceptedExamples()
    ensures ValidUtcOffset(Some("+00:00")) && ValidUtcOffset(Some("+05:30")) && ValidUtcOffset(Some("-08:00"))
    ensures ValidUtcOffset(Some("+12:00")) && ValidUtcOffset(Some("-12:00"))
    ensures ValidUtcOffset(Some("+03:15")) && ValidUtcOffset(Some("-06:30"))
  {
    StrictImpliesValid("+00:00");
    StrictImpliesValid("+05:30");
    StrictImpliesValid("-08:00");
    StrictImpliesValid("+12:00");
    StrictImpliesValid("-12:00");
    StrictImpliesValid("+03:15");
    StrictImpliesValid("-06:30");
  }

  /** Offsets the location form rejects: a missing sign, an hour above 12,
      a minute other than 00/15/30/45, a word, and no value at all. */
  lemma RejectedExamples()
    ensures !ValidUtcOffset(Some("13:00")) && !ValidUtcOffset(Some("+13:00")) && !ValidUtcOffset(Some("-13:00"))
    ensures !ValidUtcOffset(Some("+00:10")) && !ValidUtcOffset(Some("-00:20")) && !ValidUtcOffset(Some("00:00"))
    ensures !ValidUtcOffset(Some("invalid")) && !ValidUtcOffset(Some("")) && !ValidUtcOffset(None)
  {
    RejectedSingleLine("13:00");
    RejectedSingleLine("+13:00");
    RejectedSingleLine("-13:00");
    RejectedSingleLine("+00:10");
    RejectedSingleLine("-00:20");
    RejectedSingleLine("00:00");
    RejectedSingleLine("invalid");
  }

  /** A single line that is not an offset is rejected. */
  lemma RejectedSingleLine(s: string)
    requires '\n' !in s && !StrictOffset(s)
    ensures !ValidUtcOffset(Some(s))
  {
    SingleLineAgrees(s);
  }

  function Abs(n: int): nat {
    if n < 0 then -n else n
  }

  /** `formatted_utc_offset_option`: the sign (`+` for a non-negative hour),
      the hour's magnitude and the minute each padded to two digits with
      `0`; the display text is the value. */
  function FormattedOption(hour: int, minute: int): (o: OffsetOption)
    ensures o.display == o.value
  {
    var sign := if hour >= 0 then "+" else "-";
    var text := sign + RightJustify(IntToString(Abs(hour)), 2, '0') + ":" + RightJustify(IntToString(minute), 2, '0');
    OffsetOption(text, text)
  }

  /** `n.to_s.rjust(2, "0")` is the two digits of a number below 100. */
  lemma PaddedTwoDigits(n: nat)
    requires n < 100
    ensures RightJustify(IntToString(n), 2, '0') == [DigitChar(n / 10), DigitChar(n % 10)]
  {
    if n >= 10 {
      TwoDigitNumeral(n);
    }
  }

  /** The minutes east of UTC an option for `hour` and `minute` stands for:
      `-01:45` is 105 minutes west. */
  function SignedMinutes(hour: int, minute: int): int {
    if hour >= 0 then 60 * hour + minute else 60 * hour - minute
  }

  /** The offset string for a signed number of minutes. */
  function OffsetText(minutes: int): string
    requires -6000 < minutes < 6000
  {
    OffsetString(minutes < 0, Abs(minutes) / 60, Abs(minutes) % 60)
  }

  /** An option for `minutes`: shown as submitted, and the offset text of
      those minutes. */
  predicate OptionFor(o: OffsetOption, minutes: int) {
    -6000 < minutes < 6000 && o.display == o.value && o.value == OffsetText(minutes)
  }

  /** Each option the list is built from is the option for its hour and
      minute. */
  lemma FormattedOptionFor(hour: int, minute: int)
    requires -12 <= hour <= 12 && ValidMinute(minute)
    ensures OptionFor(FormattedOption(hour, minute), SignedMinutes(hour, minute))
  {
    FormattedValue(hour, minute);
    SignedMinutesSplit(hour, minute);
  }

  /** The signed minutes of an option split back into its sign, its hour's
      magnitude and its minute. */
  lemma SignedMinutesSplit(hour: int, minute: int)
    requires -12 <= hour <= 12 && 0 <= minute < 60
    ensures var m := SignedMinutes(hour, minute);
      -6000 < m < 6000 && (m < 0 <==> hour < 0) && Abs(m) / 60 == Abs(hour) && Abs(m) % 60 == minute
  {
    var m := SignedMinutes(hour, minute);
    assert Abs(m) == 60 * Abs(hour) + minute;
  }

  /** Quarter hours up to twelve hours either side of UTC are offsets the
      strict validator accepts, and they read back as the same minutes. */
  lemma OffsetTextValid(minutes: int)
    requires -720 <= minutes <= 720 && minutes % 15 == 0
    ensures StrictOffset(OffsetText(minutes)) && OffsetMinutes(OffsetText(minutes)) == minutes
  {
    QuarterHourSplit(minutes);
    OffsetStringValid(minutes < 0, Abs(minutes) / 60, Abs(minutes) % 60);
  }

  /** A quarter hour within twelve hours splits into an hour up to 12 and
      one of the four minutes. */
  lemma QuarterHourSplit(minutes: int)
    requires -720 <= minutes <= 720 && minutes % 15 == 0
    ensures Abs(minutes) / 60 <= 12 && ValidMinute(Abs(minutes) % 60)
  {
    var j := Abs(minutes) / 15;
    assert Abs(minutes) == 15 * j;
    assert Abs(minutes) / 60 == j / 4 && Abs(minutes) % 60 == 15 * (j % 4);
  }

  /** The text of an option for an hour from -12 to 12 and a minute below
      100 is the offset string of its sign, hour magnitude and minute. */
  lemma FormattedValue(hour: int, minute: nat)
    requires -12 <= hour <= 12 && minute < 100
    ensures FormattedOption(hour, minute).value == OffsetString(hour < 0, Abs(hour), minute)
  {
    var h := Abs(hour);
    var sign := if hour >= 0 then "+" else "-";
    var hh := RightJustify(IntToString(h), 2, '0');
    var mm := RightJustify(IntToString(minute), 2, '0');
    PaddedTwoDigits(h);
    PaddedTwoDigits(minute);
    assert FormattedOption(hour, minute).value == sign + hh + ":" + mm;
    SixChars(sign, hh, mm);
  }

  lemma SixChars(sign: string, hh: string, mm: string)
    requires |sign| == 1 && |hh| == 2 && |mm| == 2
    ensures sign + hh + ":" + mm == [sign[0], hh[0], hh[1], ':', mm[0], mm[1]]
  {
  }

  /** The offset, in minutes, of the `i`-th option: quarter hours from
      -12:00 to -01:00, then from +00:00 to +12:00. */
  function OptionMinutes(i: int): int {
    if i < 45 then 15 * i - 720 else 15 * (i - 45)
  }

  const WestMinutes: seq<int> := [45, 30, 15, 0]
  const EastMinutes: seq<int> := [0, 15, 30, 45]

  /** Each option in its place: the `i`-th stands for `OptionMinutes(i)`. */
  predicate InOrder(options: seq<OffsetOption>) {
    forall i :: 0 <= i < |options| ==> OptionFor(options[i], OptionMinutes(i))
  }

  /** `options << formatted_utc_offset_option(hour, minute)`, when that
      option is the next one in order. */
  method AddOption(options: seq<OffsetOption>, hour: int, minute: int) returns (longer: seq<OffsetOption>)
    requires InOrder(options)
    requires -12 <= hour <= 12 && ValidMinute(minute) && SignedMinutes(hour, minute) == OptionMinutes(|options|)
    ensures |longer| == |options| + 1 && InOrder(longer)
    ensures longer[|options|] == FormattedOption(hour, minute)
  {
    var o := FormattedOption(hour, minute);
    FormattedOptionFor(hour, minute);
    AppendInOrder(options, o);
    longer := options + [o];
  }

  lemma AppendInOrder(options: seq<OffsetOption>, o: OffsetOption)
    requires InOrder(options) && OptionFor(o, OptionMinutes(|options|))
    ensures InOrder(options + [o])
  {
    var longer := options + [o];
    forall i | 0 <= i < |longer|
      ensures OptionFor(longer[i], OptionMinutes(i))
    {
      if i < |options| {
        assert longer[i] == options[i];
      }
    }
  }

  /** `utc_offset_options`: for each hour from -12 to -1 the minutes 45, 30,
      15 and 0, then for each hour from 0 to 12 the minutes 0, 15, 30 and
      45, skipping the quarters past -12 and +12. The 94 options are valid
      offsets shown as submitted, in the order of `OptionMinutes`. */
  method UtcOffsetOptions() returns (options: seq<OffsetOption>)
    ensures |options| == 94
    ensures forall i :: 0 <= i < |options| ==>
      options[i].display == options[i].value && options[i].value == OffsetText(OptionMinutes(i))
  {
    options := WestOptions();
    options := EastOptions(options);
  }

  /** The first loop: hours -12 to -1, minutes 45, 30, 15 and 0. */
  method WestOptions() returns (options: seq<OffsetOption>)
    ensures |options| == 45 && InOrder(options)
  {
    options := [];
    var hour := -12;
    while hour < 0
      invariant -12 <= hour <= 0
      invariant |options| == if hour == -12 then 0 else 4 * hour + 45
      invariant InOrder(options)
    {
      var j := 0;
      while j < |WestMinutes|
        invariant 0 <= j <= |WestMinutes|
        invariant |options| == if hour == -12 then (if j == 4 then 1 else 0) else 4 * hour + 45 + j
        invariant InOrder(options)
      {
        var minute := WestMinutes[j];
        if !(hour == -12 && minute > 0) {
          options := AddOption(options, hour, minute);
        }
        j := j + 1;
      }
      hour := hour + 1;
    }
  }

  /** The second loop: hours 0 to 12, minutes 0, 15, 30 and 45. */
  method EastOptions(west: seq<OffsetOption>) returns (options: seq<OffsetOption>)
    requires |west| == 45 && InOrder(west)
    ensures |options| == 94 && InOrder(options)
  {
    options := west;
    var hour := 0;
    while hour <= 12
      invariant 0 <= hour <= 13
      invariant |options| == if hour == 13 then 94 else 45 + 4 * hour
      invariant InOrder(options)
    {
      var j := 0;
      while j < |EastMinutes|
        invariant 0 <= j <= |EastMinutes|
        invariant |options| == 45 + 4 * hour + (if hour == 12 && j > 0 then 1 else j)
        invariant InOrder(options)
      {
        var minute := EastMinutes[j];
        if !(hour == 12 && minute > 0) {
          options := AddOption(options, hour, minute);
        }
        j := j + 1;
      }
      hour := hour + 1;
    }
  }

  /** The options run strictly upward from -12:00 to +12:00 in quarter hours.
      The three quarters between -01:00 and +00:00 (the `-00:xx` offsets)
      are missing, and so is every quarter past ±12:00. */
  lemma OptionMinutesOrder(i: int, j: int)
    requires 0 <= i < j < 94
    ensures OptionMinutes(i) < OptionMinutes(j)
    ensures OptionMinutes(0) == -720 && OptionMinutes(93) == 720
  {
  }

  lemma OptionMinutesCover(minutes: int)
    requires -720 <= minutes <= 720 && minutes % 15 == 0
    ensures (exists i :: 0 <= i < 94 && OptionMinutes(i) == minutes) <==> !(-60 < minutes < 0)
  {
    if minutes <= -60 {
      assert OptionMinutes((minutes + 720) / 15) == minutes;
    } else if minutes >= 0 {
      assert OptionMinutes(minutes / 15 + 45) == minutes;
    }
  }

  /** Every option the form offers passes `valid_utc_offset?`, and the strict
      validator too, and reads back as the minutes of its place in the list. */
  lemma OptionTextValid(i: int)
    requires 0 <= i < 94
    ensures StrictValidUtcOffset(Some(OffsetText(OptionMinutes(i))))
    ensures ValidUtcOffset(Some(OffsetText(OptionMinutes(i))))
    ensures OffsetMinutes(OffsetText(OptionMinutes(i))) == OptionMinutes(i)
  {
    OffsetTextValid(OptionMinutes(i));
    StrictImpliesValid(OffsetText(OptionMinutes(i)));
  }
}
