/** The optional value used wherever the program stores None. */
module Optional {
  datatype Option<+T> = None | Some(value: T)
}

/**
 * Durations as the dashboard shows them: `format_duration` (app.py) splits a
 * number of seconds with two floor divmods and renders "HHh MMm SSs", and the
 * add-activity form converts a target and a unit to seconds.
 */
module Durations {
  import opened Optional

  const SecondsPerHour := 3600
  const SecondsPerMinute := 60

  /** Hours, minutes and seconds of a duration. */
  datatype Clock = Clock(hours: int, minutes: int, seconds: int)

  /** The unit selector of the add-activity form ("Hours", "Minutes", "None"). */
  datatype TimeUnit = Hours | Minutes | NoUnit

  // ---------------------------------------------------------------------------
  // Splitting seconds into hours, minutes and seconds
  // ---------------------------------------------------------------------------

  /**
   * divmod(seconds, 3600) and then divmod(rem, 60). Python's divmod floors;
   * with a positive divisor that is exactly Dafny's / and %, so negative
   * inputs split the same way (-5 gives -1 h 59 m 55 s).
   */
  function Split(s: int): (c: Clock)
    ensures c.hours * SecondsPerHour + c.minutes * SecondsPerMinute + c.seconds == s
    ensures 0 <= c.minutes < 60 && 0 <= c.seconds < 60
    ensures s >= 0 <==> c.hours >= 0
  {
    var rem := s % SecondsPerHour;
    Clock(s / SecondsPerHour, rem / SecondsPerMinute, rem % SecondsPerMinute)
  }

  /**
   * The split is the only clock with minutes and seconds below 60 that adds
   * up to the duration: an independent description of `Split`.
   */
  lemma SplitUnique(s: int, c: Clock)
    requires c.hours * SecondsPerHour + c.minutes * SecondsPerMinute + c.seconds == s
    requires 0 <= c.minutes < 60 && 0 <= c.seconds < 60
    ensures Split(s) == c
  {
    var r := c.minutes * SecondsPerMinute + c.seconds;
    assert 0 <= r < SecondsPerHour;
    assert s / SecondsPerHour == c.hours && s % SecondsPerHour == r;
    assert r / SecondsPerMinute == c.minutes && r % SecondsPerMinute == c.seconds;
  }

  // ---------------------------------------------------------------------------
  // Rendering: f"{int(hours):02d}h {int(minutes):02d}m {int(seconds):02d}s"
  // ---------------------------------------------------------------------------

  predicate IsDigit(ch: char) {
    '0' <= ch <= '9'
  }

  predicate AllDigits(s: string) {
    forall i :: 0 <= i < |s| ==> IsDigit(s[i])
  }

  function DigitChar(d: int): (ch: char)
    requires 0 <= d < 10
    ensures IsDigit(ch)
  {
    ('0' as int + d) as char
  }

  function DigitValue(ch: char): (d: int)
    requires IsDigit(ch)
    ensures 0 <= d < 10
  {
    ch as int - '0' as int
  }

  /** Decimal digits of a natural number, without leading zeros. */
  function NatToString(n: nat): (s: string)
    ensures AllDigits(s) && |s| >= 1
    ensures n >= 10 ==> |s| >= 2
    ensures 10 <= n < 100 ==> |s| == 2
    decreases n
  {
    if n < 10 then [DigitChar(n)] else NatToString(n / 10) + [DigitChar(n % 10)]
  }

  /** Python's str() of an int: a minus sign, then the digits. */
  function IntToString(n: int): string {
    if n < 0 then "-" + NatToString(-n) else NatToString(n)
  }

  /** The `02d` format: zero-padded to a width of two, sign included. */
  function Pad2(n: int): (s: string)
    ensures |s| >= 2
    ensures 0 <= n < 100 ==> |s| == 2 && AllDigits(s)
  {
    if 0 <= n < 10 then "0" + NatToString(n) else IntToString(n)
  }

  /**
   * The text `format_duration` returns for a number of seconds: the hours,
   * then "h MMm SSs" with two-digit minutes and seconds; below 100 hours the
   * hours take two digits too, so the text is "HHh MMm SSs". The fields shown
   * read back as the hours, minutes and seconds of `Split`.
   */
  function FormatDuration(s: int): (t: string)
    ensures |t| >= 11 && t[|t| - 9] == 'h' && t[|t| - 5] == 'm' && t[|t| - 1] == 's'
    ensures t[|t| - 8] == ' ' && t[|t| - 4] == ' '
    ensures AllDigits(t[|t| - 7..|t| - 5]) && AllDigits(t[|t| - 3..|t| - 1])
    ensures 0 <= s < 100 * SecondsPerHour ==> |t| == 11 && AllDigits(t[..2])
    ensures ParseInt(t[..|t| - 9]) == Some(Split(s).hours)
    ensures ParseNat(t[|t| - 7..|t| - 5]) == Split(s).minutes < 60
    ensures ParseNat(t[|t| - 3..|t| - 1]) == Split(s).seconds < 60
  {
    var c := Split(s);
    var t := Pad2(c.hours) + "h " + Pad2(c.minutes) + "m " + Pad2(c.seconds) + "s";
    assert t[|t| - 7..|t| - 5] == Pad2(c.minutes) && t[|t| - 3..|t| - 1] == Pad2(c.seconds);
    assert t[..|t| - 9] == Pad2(c.hours);
    Pad2Parses(c.hours);
    Pad2Parses(c.minutes);
    Pad2Parses(c.seconds);
    assert 0 <= s < 100 * SecondsPerHour ==> 0 <= c.hours < 100 && t[..2] == Pad2(c.hours);
    t
  }

  // ---------------------------------------------------------------------------
  // Reading a rendered duration back: the inverse of FormatDuration
  // ---------------------------------------------------------------------------

  function ParseNat(s: string): nat
    requires AllDigits(s)
  {
    if s == [] then 0 else ParseNat(s[..|s| - 1]) * 10 + DigitValue(s[|s| - 1])
  }

  function ParseInt(s: string): Option<int> {
    if |s| > 0 && s[0] == '-' then
      if |s| > 1 && AllDigits(s[1..]) then Some(0 - ParseNat(s[1..]) as int) else None
    else if |s| > 0 && AllDigits(s) then Some(ParseNat(s))
    else None
  }

  /** Reads "<hours>h MMm SSs" back into seconds; None for any other text. */
  function ParseDuration(t: string): Option<int> {
    if |t| < 11 then None
    else
      var n := |t|;
      var hours, tail := t[..n - 9], t[n - 9..];
      var mm, ss := tail[2..4], tail[6..8];
      if tail[0] == 'h' && tail[1] == ' ' && tail[4] == 'm' && tail[5] == ' ' && tail[8] == 's'
         && AllDigits(mm) && AllDigits(ss) && ParseInt(hours).Some?
      then Some(ParseInt(hours).value * SecondsPerHour + ParseNat(mm) * SecondsPerMinute + ParseNat(ss))
      else None
  }

  lemma {:induction false} ParseNatToString(n: nat)
    ensures ParseNat(NatToString(n)) == n
  {
    if n >= 10 {
      var s := NatToString(n / 10);
      assert NatToString(n) == s + [DigitChar(n % 10)];
      assert (s + [DigitChar(n % 10)])[..|s|] == s;
      ParseNatToString(n / 10);
    }
  }

  lemma Pad2ParsesSingleDigit(n: int)
    requires 0 <= n < 10
    ensures AllDigits(Pad2(n)) && ParseNat(Pad2(n)) == n
    ensures ParseInt(Pad2(n)) == Some(n)
  {
    var s := Pad2(n);
    assert s == ['0', DigitChar(n)];
    assert s[..1] == ['0'];
    assert ParseNat(s[..1]) == 0;
  }

  lemma Pad2ParsesNegative(n: int)
    requires n < 0
    ensures ParseInt(Pad2(n)) == Some(n)
  {
    var s := Pad2(n);
    assert s == "-" + NatToString(-n);
    assert s[1..] == NatToString(-n);
    ParseNatToString(-n);
  }

  lemma Pad2ParsesLarge(n: int)
    requires n >= 10
    ensures AllDigits(Pad2(n)) && ParseNat(Pad2(n)) == n
    ensures ParseInt(Pad2(n)) == Some(n)
  {
    var s := Pad2(n);
    assert s == NatToString(n);
    assert IsDigit(s[0]);
    ParseNatToString(n);
  }

  /** The padded field reads back as the number it shows. */
  lemma Pad2Parses(n: int)
    ensures ParseInt(Pad2(n)) == Some(n)
    ensures 0 <= n < 100 ==> ParseNat(Pad2(n)) == n
  {
    if 0 <= n < 10 {
      Pad2ParsesSingleDigit(n);
    } else if n < 0 {
      Pad2ParsesNegative(n);
    } else {
      Pad2ParsesLarge(n);
    }
  }

  /** Rendering loses nothing: the text of a duration reads back as that duration. */
  lemma FormatDurationRoundTrip(s: int)
    ensures ParseDuration(FormatDuration(s)) == Some(s)
  {
    var t := FormatDuration(s);
    var n := |t|;
    var c := Split(s);
    var tail := t[n - 9..];
    assert tail[2..4] == t[n - 7..n - 5] && tail[6..8] == t[n - 3..n - 1];
    assert ParseInt(t[..n - 9]) == Some(c.hours);
    assert ParseNat(tail[2..4]) == c.minutes && ParseNat(tail[6..8]) == c.seconds;
    assert c.hours * SecondsPerHour + c.minutes * SecondsPerMinute + c.seconds == s;
  }

  /** Two different durations never render to the same text. */
  lemma FormatDurationInjective(a: int, b: int)
    requires FormatDuration(a) == FormatDuration(b)
    ensures a == b
  {
    FormatDurationRoundTrip(a);
    FormatDurationRoundTrip(b);
  }

  // ---------------------------------------------------------------------------
  // Target duration of the add-activity form
  // ---------------------------------------------------------------------------

  /**
   * `target * 3600` for Hours, `target * 60` otherwise, then None unless the
   * unit is not "None" and the target is above zero.
   */
  function TargetSeconds(target: int, unit: TimeUnit): (r: Option<int>)
    ensures r.None? <==> unit == NoUnit || target <= 0
    ensures r.Some? ==> r.value > 0
    ensures r.Some? && unit == Hours ==> r.value == target * SecondsPerHour
    ensures r.Some? && unit == Minutes ==> r.value == target * SecondsPerMinute
  {
    var seconds := if unit == Hours then target * SecondsPerHour else target * SecondsPerMinute;
    if unit != NoUnit && target > 0 then Some(seconds) else None
  }

  /** A target entered in hours is listed as exactly that many hours. */
  lemma HoursTargetDisplay(target: int)
    requires target > 0
    ensures TargetSeconds(target, Hours).Some?
    ensures Split(TargetSeconds(target, Hours).value) == Clock(target, 0, 0)
  {
    SplitUnique(target * SecondsPerHour, Clock(target, 0, 0));
  }

  /** A target entered in minutes is listed as whole hours and the remaining minutes. */
  lemma MinutesTargetDisplay(target: int)
    requires target > 0
    ensures TargetSeconds(target, Minutes).Some?
    ensures Split(TargetSeconds(target, Minutes).value) == Clock(target / 60, target % 60, 0)
  {
    SplitUnique(target * SecondsPerMinute, Clock(target / 60, target % 60, 0));
  }
}
