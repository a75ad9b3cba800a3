/** `format_time`: whole seconds rendered as minutes and seconds, `MM:SS`, with no hour field. */
module ElapsedTime {
  import opened Wrappers
  import opened Decimal

  /**
   * Python's `f"{m:02}"` for any integer: the sign, then the digits, zero-padded so that the
   * whole is at least two characters. A negative number already has two characters.
   */
  function Pad2(m: int): (s: string)
    ensures |s| >= 2
  {
    if m >= 0 then ZeroPad(m, 2) else "-" + ZeroPad(-m, 1)
  }

  /**
   * `format_time` applied to a number of seconds already truncated by `int()`. Python's
   * `divmod(n, 60)` floors; so do Dafny's `/` and `%` for the positive divisor 60.
   */
  function FormatTime(seconds: int): string
  {
    Pad2(seconds / 60) + ":" + Pad2(seconds % 60)
  }

  /**
   * A formatted time is at least `MM:SS`: a colon three characters from the end, then two
   * digits holding the seconds below a minute; for a non-negative count, the minutes field
   * is all digits and holds the whole minutes.
   */
  lemma FormatTimeShape(seconds: int)
    ensures var r := FormatTime(seconds);
      && |r| >= 5 && r[|r| - 3] == ':'
      && AllDigits(r[|r| - 2..]) && Value(r[|r| - 2..]) == seconds % 60 < 60
      && (seconds >= 0 ==> AllDigits(r[..|r| - 3]) && Value(r[..|r| - 3]) == seconds / 60)
  {
    var minutes, secs := seconds / 60, seconds % 60;
    assert Pad2(secs) == FixedDigits(secs, 2) by {
      ZeroPadFits(secs, 2);
    }
    ZeroPadValue(secs, 2);
    ColonSplit(Pad2(minutes), Pad2(secs));
    if seconds >= 0 {
      ZeroPadValue(minutes, 2);
    }
  }

  /** Minutes and seconds as read back from a formatted time. */
  datatype Clock = Clock(minutes: int, seconds: nat)

  /** Reads the minutes field back: an optionally negative run of digits. */
  function ParseMinutes(m: string): Option<int>
  {
    if |m| > 1 && m[0] == '-' && AllDigits(m[1..]) then Some(-(Value(m[1..]) as int))
    else if |m| > 0 && AllDigits(m) then Some(Value(m))
    else None
  }

  /**
   * Reads `MM:SS` back: the minutes field, a colon, and exactly two digits. Anything else is
   * `None`.
   */
  function ParseTime(s: string): Option<Clock>
  {
    if |s| < 3 || s[|s| - 3] != ':' || !AllDigits(s[|s| - 2..]) then None
    else
      match ParseMinutes(s[..|s| - 3])
      case None => None
      case Some(minutes) => Some(Clock(minutes, Value(s[|s| - 2..])))
  }

  /** Every padded number reads back as itself, negative ones included. */
  lemma Pad2ReadsBack(n: int)
    ensures ParseMinutes(Pad2(n)) == Some(n)
  {
    var m := Pad2(n);
    if n >= 0 {
      ZeroPadValue(n, 2);
      assert IsDigit(m[0]);
    } else {
      ZeroPadValue(-n, 1);
      assert m[1..] == ZeroPad(-n, 1);
    }
  }

  /** Where the two fields lie in `m + ":" + s` when `s` has two characters. */
  lemma ColonSplit(m: string, s: string)
    requires |s| == 2
    ensures var r := m + ":" + s;
      && |r| >= 3 && r[|r| - 3] == ':' && r[..|r| - 3] == m && r[|r| - 2..] == s
  {
  }

  /**
   * Reading a formatted time back gives the quotient and remainder of `divmod(seconds, 60)`,
   * and hence the number of seconds: minutes are never wrapped into hours.
   */
  lemma FormatTimeRoundTrip(seconds: int)
    ensures ParseTime(FormatTime(seconds)) == Some(Clock(seconds / 60, seconds % 60))
    ensures var c := ParseTime(FormatTime(seconds)).value; c.minutes * 60 + c.seconds == seconds
  {
    var minutes, secs := seconds / 60, seconds % 60;
    assert Pad2(secs) == FixedDigits(secs, 2) by {
      ZeroPadFits(secs, 2);
    }
    ZeroPadValue(secs, 2);
    ColonSplit(Pad2(minutes), Pad2(secs));
    Pad2ReadsBack(minutes);
  }

  /** An hour is shown as sixty minutes: 3600 seconds is "60:00". */
  lemma FormatTimeHour()
    ensures FormatTime(3600) == "60:00"
  {
    assert Pad2(60) == FixedDigits(60, 2) == "60";
    assert Pad2(0) == FixedDigits(0, 2) == "00";
  }

  /** Under a minute the minutes are a padded zero: 59 seconds is "00:59". */
  lemma FormatTimeUnderAMinute()
    ensures FormatTime(59) == "00:59"
  {
    assert Pad2(0) == FixedDigits(0, 2) == "00";
    assert Pad2(59) == FixedDigits(59, 2) == "59";
  }
}
