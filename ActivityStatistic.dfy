/** The display text of one activity statistic (`ActivityStatistic.fmt_value`)
    for integer values: metres up to 2000, beats per minute and durations in
    seconds. A duration is written as hours `hr`, minutes `m` and seconds
    `s` fields; `ReadDuration` reads such a text back as a number of seconds,
    which is how the formatter's output is judged here. */
module ActivityStatistic {
  import opened Wrappers
  import opened Text

  // ---------------------------------------------------------------------
  // Reading a duration text back

  /** The number of decimal digits at the front of s. */
  function LeadingDigits(s: string): (k: nat)
    ensures k <= |s| && AllDigits(s[..k]) && (k < |s| ==> !IsDigit(s[k]))
  {
    if s == [] || !IsDigit(s[0]) then 0
    else
      var k := 1 + LeadingDigits(s[1..]);
      assert s[..k] == [s[0]] + s[1..][..k - 1];
      k
  }

  /** The seconds a text of `<digits>hr`, `<digits>m` and a final
      `<digits>s` field stands for, in any order and number of hour and
      minute fields; None for any other text. */
  function ReadDuration(s: string): (r: Option<nat>)
    decreases |s|
  {
    var k := LeadingDigits(s);
    if k == 0 || k == |s| then None
    else ReadUnit(ParseDigits(s[..k]), s[k..])
  }

  /** The seconds of a field with number d whose unit text starts `rest`. */
  function ReadUnit(d: nat, rest: string): (r: Option<nat>)
    requires |rest| >= 1
    decreases |rest|, 0
  {
    if rest[0] == 's' then (if |rest| == 1 then Some(d) else None)
    else if rest[0] == 'h' && |rest| >= 2 && rest[1] == 'r' then
      match ReadDuration(rest[2..])
      case Some(t) => Some(3600 * d + t)
      case None => None
    else if rest[0] == 'm' then
      match ReadDuration(rest[1..])
      case Some(t) => Some(60 * d + t)
      case None => None
    else None
  }

  lemma {:induction false} LeadingDigitsOf(digits: string, rest: string)
    requires AllDigits(digits)
    requires rest == [] || !IsDigit(rest[0])
    ensures LeadingDigits(digits + rest) == |digits|
  {
    if digits != [] {
      assert (digits + rest)[1..] == digits[1..] + rest;
      LeadingDigitsOf(digits[1..], rest);
    } else {
      assert digits + rest == rest;
    }
  }

  /** Splits `digits + unit + rest` where digits is a non-empty digit run. */
  lemma SplitField(digits: string, unit: string, rest: string)
    requires |digits| >= 1 && AllDigits(digits)
    requires |unit| >= 1 && !IsDigit(unit[0])
    ensures var s := digits + unit + rest;
      && LeadingDigits(s) == |digits|
      && s[..|digits|] == digits && s[|digits|..] == unit + rest
  {
    var s := digits + unit + rest;
    assert s == digits + (unit + rest);
    LeadingDigitsOf(digits, unit + rest);
  }

  lemma ReadSeconds(digits: string)
    requires |digits| >= 1 && AllDigits(digits)
    ensures ReadDuration(digits + "s") == Some(ParseDigits(digits))
  {
    assert digits + "s" == digits + "s" + "";
    SplitField(digits, "s", "");
    assert ReadUnit(ParseDigits(digits), "s") == Some(ParseDigits(digits));
  }

  lemma ReadMinutes(digits: string, rest: string, t: nat)
    requires |digits| >= 1 && AllDigits(digits)
    requires ReadDuration(rest) == Some(t)
    ensures ReadDuration(digits + "m" + rest) == Some(60 * ParseDigits(digits) + t)
  {
    SplitField(digits, "m", rest);
    var tail := "m" + rest;
    assert tail[0] == 'm' && tail[1..] == rest;
    assert ReadUnit(ParseDigits(digits), tail) == Some(60 * ParseDigits(digits) + t);
  }

  lemma ReadHours(digits: string, rest: string, t: nat)
    requires |digits| >= 1 && AllDigits(digits)
    requires ReadDuration(rest) == Some(t)
    ensures ReadDuration(digits + "hr" + rest) == Some(3600 * ParseDigits(digits) + t)
  {
    SplitField(digits, "hr", rest);
    var tail := "hr" + rest;
    assert tail[0] == 'h' && tail[1] == 'r' && tail[2..] == rest;
    assert ReadUnit(ParseDigits(digits), tail) == Some(3600 * ParseDigits(digits) + t);
  }

  // ---------------------------------------------------------------------
  // The seconds branch as written

  /** What the seconds branch produces, case by case: up to 60 the plain
      number; up to 3600 the minutes and then `n % 80` as the seconds field;
      beyond 3600 the hours and then `n % 60`, with no minutes field. */
  function SecondsText(n: int): string {
    if n > 3600 then NatToString(n / 3600) + "hr" + Pad2(n % 60) + "s"
    else if n > 60 then NatToString(n / 60) + "m" + Pad2(n % 80) + "s"
    else IntToString(n) + "s"
  }

  /** The seconds branch, building the text field by field and reducing the
      remaining value after each field, as the source does. */
  method FormatSeconds(seconds: int) returns (text: string)
    ensures text == SecondsText(seconds)
  {
    var value := seconds;
    text := "";
    if value > 3600 {
      text := text + NatToString(value / 3600) + "hr";
      value := value % 60;
      assert text == NatToString(seconds / 3600) + "hr";
    }
    if value > 60 {
      if text != "" {
        // After an hours field the value is below 60, so this branch, which
        // would add a two-digit minutes field, is never taken.
        assert false;
      } else {
        text := text + NatToString(value / 60) + "m";
      }
      value := value % 80;
    }
    if text != "" {
      text := text + Pad2(value) + "s";
    } else {
      text := text + IntToString(value) + "s";
    }
  }

  /** Every seconds text ends in `s`; it begins with a digit exactly when
      the value is not negative. */
  lemma SecondsShape(n: int)
    ensures var t := SecondsText(n);
      |t| >= 2 && t[|t| - 1] == 's' && (IsDigit(t[0]) <==> n >= 0)
  {
  }

  /** Up to 60 seconds the text reads back exactly. */
  lemma ReadBackSeconds(n: nat)
    requires n <= 60
    ensures ReadDuration(SecondsText(n)) == Some(n)
  {
    ParseNatToString(n);
    ReadSeconds(NatToString(n));
  }

  /** Between 60 and 3600 the minutes are kept with `n % 80` seconds. */
  lemma ReadBackMinutes(n: nat)
    requires 60 < n <= 3600
    ensures ReadDuration(SecondsText(n)) == Some(n / 60 * 60 + n % 80)
  {
    var m, sec := NatToString(n / 60), Pad2(n % 80);
    assert SecondsText(n) == m + "m" + (sec + "s");
    ParsePad2(n % 80);
    ReadSeconds(sec);
    ParseNatToString(n / 60);
    ReadMinutes(m, sec + "s", n % 80);
  }

  /** Beyond 3600 the hours are kept with `n % 60` seconds and the minutes
      of the last hour are lost. */
  lemma ReadBackHours(n: nat)
    requires n > 3600
    ensures ReadDuration(SecondsText(n)) == Some(n / 3600 * 3600 + n % 60)
  {
    var h, sec := NatToString(n / 3600), Pad2(n % 60);
    assert SecondsText(n) == h + "hr" + (sec + "s");
    ParsePad2(n % 60);
    ReadSeconds(sec);
    ParseNatToString(n / 3600);
    ReadHours(h, sec + "s", n % 60);
  }

  /** The as-written text reads back exactly iff neither quirk bites: up to
      60 seconds, or below an hour with `n % 80 == n % 60`, or above an hour
      with no whole minute in the last hour. */
  lemma ReadBackExact(n: nat)
    ensures ReadDuration(SecondsText(n)) == Some(n) <==>
      n <= 60 || (n <= 3600 && n % 80 == n % 60) || (n > 3600 && n % 3600 < 60)
  {
    if n > 3600 {
      ReadBackHours(n);
      HourRemainder(n);
    } else if n > 60 {
      ReadBackMinutes(n);
      assert n == n / 60 * 60 + n % 60;
    } else {
      ReadBackSeconds(n);
    }
  }

  lemma HourRemainder(n: nat)
    ensures n / 3600 * 3600 + n % 60 == n <==> n % 3600 < 60
  {
    var q, r := n / 3600, n % 3600;
    assert n == q * 3600 + r;
    assert n % 60 == r % 60 by {
      assert n == (q * 60) * 60 + r;
    }
    assert r == r / 60 * 60 + r % 60;
  }

  /** 150 seconds is shown as two minutes and seventy seconds. */
  lemma MinutesMisread()
    ensures SecondsText(150) == "2m70s"
    ensures ReadDuration(SecondsText(150)) == Some(190)
  {
    assert 150 / 60 == 2 && 150 % 80 == 70;
    assert NatToString(2) == "2";
    assert NatToString(7) == "7" && NatToString(70) == NatToString(7) + "0";
    assert SecondsText(150) == NatToString(2) + "m" + Pad2(70) + "s";
    ReadBackMinutes(150);
  }

  /** 3700 seconds (one hour, one minute, forty seconds) loses its minute. */
  lemma HoursMisread()
    ensures SecondsText(3700) == "1hr40s"
    ensures ReadDuration(SecondsText(3700)) == Some(3640)
  {
    assert 3700 / 3600 == 1 && 3700 % 60 == 40;
    assert NatToString(1) == "1";
    assert NatToString(4) == "4" && NatToString(40) == NatToString(4) + "0";
    assert SecondsText(3700) == NatToString(1) + "hr" + Pad2(40) + "s";
    ReadBackHours(3700);
  }

  // ---------------------------------------------------------------------
  // The seconds branch with the remainders it evidently means

  /** The seconds branch with `value %= 3600` after the hours and
      `value %= 60` after the minutes: hours, then minutes of the remaining
      hour (omitted when at most 60 seconds remain), then seconds of the
      remaining minute. */
  function FixedSecondsText(n: int): string {
    if n > 3600 then NatToString(n / 3600) + "hr" + AfterHours(n % 3600)
    else if n > 60 then NatToString(n / 60) + "m" + Pad2(n % 60) + "s"
    else IntToString(n) + "s"
  }

  /** The fields that follow an hours field, for the remaining r seconds. */
  function AfterHours(r: nat): string {
    if r > 60 then Pad2(r / 60) + "m" + Pad2(r % 60) + "s" else Pad2(r) + "s"
  }

  lemma ReadAfterHours(r: nat)
    ensures ReadDuration(AfterHours(r)) == Some(r)
  {
    if r > 60 {
      ParsePad2(r / 60);
      ParsePad2(r % 60);
      ReadSeconds(Pad2(r % 60));
      ReadMinutes(Pad2(r / 60), Pad2(r % 60) + "s", r % 60);
      assert AfterHours(r) == Pad2(r / 60) + "m" + (Pad2(r % 60) + "s");
    } else {
      ParsePad2(r);
      ReadSeconds(Pad2(r));
    }
  }

  lemma ReadFixedMinutes(n: nat)
    requires 60 < n <= 3600
    ensures ReadDuration(FixedSecondsText(n)) == Some(n)
  {
    var m, sec := NatToString(n / 60), Pad2(n % 60);
    assert FixedSecondsText(n) == m + "m" + (sec + "s");
    ParseNatToString(n / 60);
    ParsePad2(n % 60);
    ReadSeconds(sec);
    ReadMinutes(m, sec + "s", n % 60);
  }

  lemma ReadFixedHours(n: nat)
    requires n > 3600
    ensures ReadDuration(FixedSecondsText(n)) == Some(n)
  {
    ParseNatToString(n / 3600);
    ReadAfterHours(n % 3600);
    ReadHours(NatToString(n / 3600), AfterHours(n % 3600), n % 3600);
  }

  /** The corrected text reads back as exactly the seconds it shows. */
  lemma FixedRoundTrip(n: nat)
    ensures ReadDuration(FixedSecondsText(n)) == Some(n)
  {
    if n > 3600 {
      ReadFixedHours(n);
    } else if n > 60 {
      ReadFixedMinutes(n);
    } else {
      ParseNatToString(n);
      ReadSeconds(NatToString(n));
    }
  }

  // ---------------------------------------------------------------------
  // The unit dispatch

  /** `fmt_value` for an integer value in the given units. None stands for
      the branches that format a floating-point number (metres above 2000,
      km/h, percent and any other unit), which this model does not render. */
  method FmtValue(units: string, value: int) returns (r: Option<string>)
    ensures units == "m" && value <= 2000 ==> r == Some(IntToString(value) + "m")
    ensures units == "s" ==> r == Some(SecondsText(value))
    ensures units == "bpm" ==> r == Some(IntToString(value) + "bpm")
    ensures r.None? <==> (units == "m" && value > 2000) || (units != "m" && units != "s" && units != "bpm")
  {
    if units == "m" {
      if value > 2000 {
        r := None;
      } else {
        r := Some(IntToString(value) + "m");
      }
    } else if units == "s" {
      var text := FormatSeconds(value);
      r := Some(text);
    } else if units == "bpm" {
      r := Some(IntToString(value) + "bpm");
    } else {
      r := None;
    }
  }

  /** A text made of a number and a unit suffix gives back the number. */
  lemma NumberBeforeSuffix(value: nat, suffix: string)
    requires |suffix| >= 1 && !IsDigit(suffix[0])
    ensures var t := IntToString(value) + suffix;
      && LeadingDigits(t) == |t| - |suffix|
      && t[|t| - |suffix|..] == suffix
      && ParseDigits(t[..|t| - |suffix|]) == value
  {
    SplitField(NatToString(value), suffix, "");
    assert NatToString(value) + suffix + "" == IntToString(value) + suffix;
    ParseNatToString(value);
  }
}
