/** `sTohhmmss`: a clock value in seconds rendered as hours, minutes and
    seconds, each through `%02i`, with the float floor division and modulo
    Python applies. The hour field is never wrapped at 24. */
module TimeEncoder {
  import opened Text

  /** Python's `x // d` on floats (an integral value). */
  function FloorDiv(x: real, d: real): int
    requires d > 0.0
  {
    (x / d).Floor
  }

  /** Python's `x % d` on floats: `x - d * (x // d)`, which has the sign of
      the divisor. */
  function FloorMod(x: real, d: real): real
    requires d > 0.0
  {
    x - d * FloorDiv(x, d) as real
  }

  /** The whole hours, minutes and seconds in a count of seconds. */
  datatype Hms = Hms(hours: int, minutes: int, seconds: int)

  /** Splits a whole count of seconds: the minutes and seconds are below 60,
      the hours are whatever is left, without any wrap at 24. */
  function Split(total: int): (t: Hms)
    ensures t.hours * 3600 + t.minutes * 60 + t.seconds == total
    ensures 0 <= t.minutes < 60 && 0 <= t.seconds < 60
  {
    Hms(total / 3600, total % 3600 / 60, total % 60)
  }

  /** The split is the only one with minutes and seconds below 60. */
  lemma SplitUnique(total: int, t: Hms)
    requires t.hours * 3600 + t.minutes * 60 + t.seconds == total
    requires 0 <= t.minutes < 60 && 0 <= t.seconds < 60
    ensures t == Split(total)
  {
    var s := Split(total);
    var a := t.minutes * 60 + t.seconds;
    var b := s.minutes * 60 + s.seconds;
    assert 0 <= a < 3600 && 0 <= b < 3600;
    assert (t.hours - s.hours) * 3600 == b - a;
    assert t.hours == s.hours;
    assert t.minutes == s.minutes;
  }

  /** `sTohhmmss(seconds)`. */
  function SecondsToHhmmss(seconds: real): string
  {
    var hours := FloorDiv(seconds, 3600.0);
    var rest := FloorMod(seconds, 3600.0);
    var minutes := FloorDiv(rest, 60.0);
    var secs := FloorMod(rest, 60.0);
    FormatInt(hours, 2) + FormatInt(minutes, 2) + FormatInt(Trunc(secs), 2)
  }

  /** For the two divisors `sTohhmmss` uses, float floor division and modulo
      agree with integer division and remainder of the floor; the float
      remainder therefore lies in `[0, d)`. */
  lemma FloorDivOfFloor(x: real, d: nat)
    requires d == 3600 || d == 60
    ensures FloorDiv(x, d as real) == x.Floor / d
    ensures FloorMod(x, d as real).Floor == x.Floor % d
    ensures 0.0 <= FloorMod(x, d as real) < d as real
  {
    var n, q := x.Floor, FloorDiv(x, d as real);
    assert q == n / d;
    assert FloorMod(x, d as real) == x - (q * d) as real;
    assert n - q * d == n % d;
  }

  /** The three integers `sTohhmmss` prints are the split of the clock value's
      floor: float `//` and `%` followed by `%i` lose only the fraction. */
  lemma {:induction false} PrintedFieldsAreSplit(seconds: real)
    ensures var rest := FloorMod(seconds, 3600.0);
      var t := Split(seconds.Floor);
      FloorDiv(seconds, 3600.0) == t.hours &&
      FloorDiv(rest, 60.0) == t.minutes &&
      Trunc(FloorMod(rest, 60.0)) == t.seconds
  {
    var n := seconds.Floor;
    var rest := FloorMod(seconds, 3600.0);
    FloorDivOfFloor(seconds, 3600);
    FloorDivOfFloor(rest, 60);
    var secs := FloorMod(rest, 60.0);
    assert Trunc(secs) == secs.Floor;
    ModMod(n);
  }

  lemma ModMod(n: int)
    ensures n % 3600 % 60 == n % 60
  {
    assert n == (n / 3600) * 3600 + n % 3600;
    assert (n / 3600) * 3600 == ((n / 3600) * 60) * 60;
  }

  /** Reads an `HHMMSS` text back: the last four characters are two-digit
      minutes and seconds, everything before them is the (signed) hours. */
  function DecodeHhmmss(text: string): Option<Hms>
  {
    if |text| >= 6 && AllDigits(text[|text| - 4..]) then
      match IntValue(text[..|text| - 4])
      case Some(h) =>
        Some(Hms(h, DigitsValue(text[|text| - 4..|text| - 2]), DigitsValue(text[|text| - 2..])))
      case None => None
    else None
  }

  lemma TwoDigits(n: int)
    requires 0 <= n < 100
    ensures |FormatInt(n, 2)| == 2 && AllDigits(FormatInt(n, 2))
    ensures DigitsValue(FormatInt(n, 2)) == n
  {
    FormatIntRoundTrip(n, 2);
    NatTextLength(n, 2);
    NatTextRoundTrip(n);
    ZeroPadValue(NatText(n), 2);
  }

  /** Reading the `sTohhmmss` text back gives the hours, minutes and seconds
      of the clock value's floor: nothing is wrapped or lost beyond the
      fraction of a second. */
  lemma HhmmssRoundTrip(seconds: real)
    ensures DecodeHhmmss(SecondsToHhmmss(seconds)) == Some(Split(seconds.Floor))
  {
    var t := Split(seconds.Floor);
    PrintedFieldsAreSplit(seconds);
    var hh, mm, ss := FormatInt(t.hours, 2), FormatInt(t.minutes, 2), FormatInt(t.seconds, 2);
    assert SecondsToHhmmss(seconds) == hh + mm + ss;
    FormatIntRoundTrip(t.hours, 2);
    TwoDigits(t.minutes);
    TwoDigits(t.seconds);
    var text := hh + mm + ss;
    assert text[..|text| - 4] == hh;
    assert text[|text| - 4..|text| - 2] == mm;
    assert text[|text| - 2..] == ss;
    assert text[|text| - 4..] == mm + ss;
  }

  /** The text is never shorter than six characters, and is exactly six
      characters when the hours fit `%02i`: from -9 up to 99 hours. A clock
      value of 100 hours or more gives a longer field. */
  lemma HhmmssWidth(seconds: real)
    ensures |SecondsToHhmmss(seconds)| >= 6
    ensures |SecondsToHhmmss(seconds)| == 6 <==> -32400.0 <= seconds < 360000.0
  {
    var t := Split(seconds.Floor);
    PrintedFieldsAreSplit(seconds);
    TwoDigits(t.minutes);
    TwoDigits(t.seconds);
    FormatIntRoundTrip(t.hours, 2);
    assert |SecondsToHhmmss(seconds)| == |FormatInt(t.hours, 2)| + 4;
    HourWidth(t.hours);
  }

  lemma HourWidth(h: int)
    ensures |FormatInt(h, 2)| == 2 <==> -9 <= h < 100
  {
    if h >= 0 {
      NatTextLength(h, 2);
      NatTextDigits(h);
    } else {
      NatTextLength(-h, 1);
      NatTextDigits(-h);
    }
  }

  /** The text holds only digits and, for a negative clock value, a minus sign. */
  lemma HhmmssChars(seconds: real)
    ensures forall i :: 0 <= i < |SecondsToHhmmss(seconds)| ==>
      IsDigit(SecondsToHhmmss(seconds)[i]) || SecondsToHhmmss(seconds)[i] == '-'
  {
    var t := Split(seconds.Floor);
    PrintedFieldsAreSplit(seconds);
    var hh, mm, ss := FormatInt(t.hours, 2), FormatInt(t.minutes, 2), FormatInt(t.seconds, 2);
    FormatIntChars(t.hours, 2);
    FormatIntChars(t.minutes, 2);
    FormatIntChars(t.seconds, 2);
    var text := hh + mm + ss;
    assert SecondsToHhmmss(seconds) == text;
    forall i | 0 <= i < |text| ensures IsDigit(text[i]) || text[i] == '-' {
      if i < |hh| {
        assert text[i] == hh[i];
      } else if i < |hh| + |mm| {
        assert text[i] == mm[i - |hh|];
      } else {
        assert text[i] == ss[i - |hh| - |mm|];
      }
    }
  }

  /** Examples: 3661 s, 3725 s, and 90000 s, where the hour field reads 25. */
  lemma HhmmssExamples()
    ensures SecondsToHhmmss(3661.0) == "010101"
    ensures SecondsToHhmmss(3725.0) == "010205"
    ensures SecondsToHhmmss(90000.0) == "250000"
  {
    PrintedFieldsAreSplit(3661.0);
    PrintedFieldsAreSplit(3725.0);
    PrintedFieldsAreSplit(90000.0);
  }
}
