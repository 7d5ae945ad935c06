/** `ddToddm`: decimal degrees rendered as the truncated whole degrees
    (`%i`) immediately followed by the minutes (`%f`), with no separator and
    no padding; and the fixed-hemisphere latitude and longitude fields built
    from it. */
module CoordinateEncoder {
  import opened Text

  /** `abs(deg - int(deg)) * 60`: the minutes beyond the whole degrees. */
  function Minutes(deg: real): (m: real)
    ensures 0.0 <= m < 60.0
    ensures m == Abs(deg - Trunc(deg) as real) * 60.0
  {
    Abs(deg - Trunc(deg) as real) * 60.0
  }

  /** `ddToddm(deg)`. */
  function DdToDdm(deg: real): string
  {
    FormatInt(Trunc(deg), 0) + FixedSix(Minutes(deg))
  }

  /** The minutes `%f` prints, as a whole number of millionths. */
  function MicroMinutes(deg: real): (n: nat)
    ensures n <= 60 * Micro
  {
    RoundHalfEven(Minutes(deg) * Micro as real)
  }

  /** The latitude field is always followed by `N`, whatever its sign. */
  const LatitudeHemisphere := "N"
  /** The longitude field is always followed by `W`, whatever its sign. */
  const LongitudeHemisphere := "W"

  /** Latitude field: `str(ddToddm(latitude))`. */
  function LatitudeField(latitude: real): string
  {
    DdToDdm(latitude)
  }

  /** Longitude field: `"0" + ddToddm(-longitude)`. */
  function LongitudeField(longitude: real): string
  {
    "0" + DdToDdm(-longitude)
  }

  /** The field splits into the `%i` text of the truncated degrees and the
      `%f` text of the minutes: the first reads back as the degrees truncated
      toward zero, the second as the minutes to the nearest millionth. */
  lemma DdmParts(deg: real)
    ensures var s := DdToDdm(deg);
      var k := |s| - |FixedSix(Minutes(deg))|;
      0 < k < |s| &&
      IntValue(s[..k]) == Some(Trunc(deg)) &&
      FixedSixValue(s[k..]) == Some(MicroMinutes(deg))
  {
    var d, m := FormatInt(Trunc(deg), 0), FixedSix(Minutes(deg));
    FormatIntRoundTrip(Trunc(deg), 0);
    FixedSixRoundTrip(Minutes(deg));
    assert FixedSixValue(m) == Some(MicroMinutes(deg));
    ConcatSlices(d, m);
    var s := DdToDdm(deg);
    assert s == d + m;
    var k := |s| - |m|;
    assert s[..k] == d && s[k..] == m;
  }

  /** The characters of a `ddToddm` text: digits, the point, a minus sign. */
  lemma DdmChars(deg: real)
    ensures forall i :: 0 <= i < |DdToDdm(deg)| ==>
      IsDigit(DdToDdm(deg)[i]) || DdToDdm(deg)[i] == '.' || DdToDdm(deg)[i] == '-'
  {
    var d, m := FormatInt(Trunc(deg), 0), FixedSix(Minutes(deg));
    FormatIntRoundTrip(Trunc(deg), 0);
    FixedSixChars(Minutes(deg));
    var s := d + m;
    forall i | 0 <= i < |s| ensures IsDigit(s[i]) || s[i] == '.' || s[i] == '-' {
      if i < |d| {
        if Trunc(deg) < 0 && i > 0 {
          assert s[i] == d[1..][i - 1];
        }
      } else {
        assert s[i] == m[i - |d|];
      }
    }
  }

  /** Degrees and millionths of a minute, as a reader of `DDMM.mmmmmm` sees them. */
  datatype Ddm = Ddm(degrees: nat, microMinutes: nat)

  /** How an NMEA 0183 reader decodes a `DDMM.mmmmmm` (or `DDDMM.mmmmmm`)
      field: the last nine characters are two-digit minutes with six
      decimals, everything before them is the whole degrees. */
  function ReadDdm(s: string): Option<Ddm>
  {
    if |s| >= 10 && s[|s| - 7] == '.' && AllDigits(s[..|s| - 7]) && AllDigits(s[|s| - 6..])
    then Some(Ddm(DigitsValue(s[..|s| - 9]),
                  DigitsValue(s[|s| - 9..|s| - 7]) * Micro + DigitsValue(s[|s| - 6..])))
    else None
  }

  lemma TwoDigitWhole(n: nat)
    requires 10 * Micro <= n <= 60 * Micro
    ensures |NatText(n / Micro)| == 2
  {
    NatTextLength(n / Micro, 2);
    NatTextLength(n / Micro, 1);
  }

  /** Where the degree digits, the minute digits, the point and the
      decimals sit in a `DDMM.mmmmmm` text. */
  lemma DdmSlices(d: string, ip: string, fp: string)
    requires |ip| == 2 && |fp| == 6
    ensures var s := d + ip + "." + fp;
      s[..|s| - 9] == d && s[|s| - 9..|s| - 7] == ip && s[|s| - 7] == '.' &&
      s[|s| - 6..] == fp && s[..|s| - 7] == d + ip
  {
    var t := d + ip;
    ConcatSlices(t + ".", fp);
    ConcatSlices(t, ".");
    ConcatSlices(d, ip);
  }

  /** Degree digits, two minute digits, a point and six decimals read back
      as those values. */
  lemma ReadDdmText(d: string, ip: string, fp: string)
    requires |d| >= 1 && |ip| == 2 && |fp| == 6
    requires AllDigits(d) && AllDigits(ip) && AllDigits(fp)
    ensures ReadDdm(d + ip + "." + fp) ==
      Some(Ddm(DigitsValue(d), DigitsValue(ip) * Micro + DigitsValue(fp)))
  {
    hide DigitsValue;
    DdmSlices(d, ip, fp);
    DigitsValueAppend(d, ip);
  }

  /** When the minutes print with two whole digits (ten minutes or more) and
      the degrees are not negative, a `DDMM.mmmmmm` reader recovers the
      truncated degrees and the rounded minutes. */
  lemma ReadDdmWithTwoDigitMinutes(deg: real)
    requires deg >= 0.0 && MicroMinutes(deg) >= 10 * Micro
    ensures ReadDdm(DdToDdm(deg)) == Some(Ddm(Trunc(deg), MicroMinutes(deg)))
  {
    hide Minutes, RoundHalfEven, Trunc, Abs;
    var n := MicroMinutes(deg);
    var d := FormatInt(Trunc(deg), 0);
    var ip, fp := NatText(n / Micro), ZeroPad(NatText(n % Micro), 6);
    FormatIntRoundTrip(Trunc(deg), 0);
    NatTextRoundTrip(n / Micro);
    TwoDigitWhole(n);
    FractionDigits(n % Micro);
    assert DdToDdm(deg) == d + ip + "." + fp;
    ReadDdmText(d, ip, fp);
  }

  /** The longitude field of a western (non-positive) longitude reads back the
      same way: the leading "0" only widens the degrees. */
  lemma ReadLongitudeWithTwoDigitMinutes(longitude: real)
    requires longitude <= 0.0 && MicroMinutes(-longitude) >= 10 * Micro
    ensures ReadDdm(LongitudeField(longitude)) == Some(Ddm(Trunc(-longitude), MicroMinutes(-longitude)))
  {
    ReadDdmWithTwoDigitMinutes(-longitude);
    ReadDdmLeadingZero(DdToDdm(-longitude));
  }

  lemma ReadDdmLeadingZero(s: string)
    requires ReadDdm(s).Some?
    ensures ReadDdm("0" + s) == ReadDdm(s)
  {
    var t := "0" + s;
    var a, b := s[..|s| - 7], s[..|s| - 9];
    assert t[..|t| - 7] == "0" + a;
    assert t[..|t| - 9] == "0" + b;
    assert t[|t| - 9..|t| - 7] == s[|s| - 9..|s| - 7];
    assert t[|t| - 6..] == s[|s| - 6..];
    assert t[|t| - 7] == s[|s| - 7];
    assert AllDigits("0");
    assert AllDigits(b) by {
      assert forall i :: 0 <= i < |b| ==> b[i] == a[i];
    }
    DigitsValueAppend("0", b);
    DigitsValueAppend("0", a);
  }

  /** `ddToddm` of an angle whose minutes are whole. */
  lemma DdmOfWholeMinutes(deg: real, m: nat)
    requires Minutes(deg) == m as real
    ensures DdToDdm(deg) == FormatInt(Trunc(deg), 0) + NatText(m) + ".000000"
  {
    FixedSixWhole(m);
  }

  /** Below ten minutes the `%f` text has a single whole digit: eight
      characters, where a `DDMM.mmmmmm` field has nine. */
  lemma MinutesUnpadded(deg: real)
    requires MicroMinutes(deg) < 10 * Micro
    ensures |FixedSix(Minutes(deg))| == 8
  {
    var n := MicroMinutes(deg);
    NatTextLength(n / Micro, 1);
    NatTextDigits(n / Micro);
    FractionDigits(n % Micro);
  }

  /** 10.5 degrees: 10 whole degrees and 30 minutes. */
  lemma DdmTenAndAHalf()
    ensures DdToDdm(10.5) == "1030.000000"
  {
    assert Trunc(10.5) == 10 && Minutes(10.5) == 30 as real;
    DdmOfWholeMinutes(10.5, 30);
    hide DdToDdm, Minutes, Trunc;
    assert NatText(30) == "30" && FormatInt(10, 0) == "10";
  }

  /** 103 degrees gives the same text as 10.5 degrees: with no separator and
      no padding the text does not determine the angle. */
  lemma DdmNotInjective()
    ensures DdToDdm(103.0) == DdToDdm(10.5)
  {
    DdmTenAndAHalf();
    assert Trunc(103.0) == 103 && Minutes(103.0) == 0 as real;
    DdmOfWholeMinutes(103.0, 0);
    hide DdToDdm, Minutes, Trunc;
    assert NatText(0) == "0" && FormatInt(103, 0) == "103";
  }

  /** 10.05 degrees gives "103.000000": the 3 minutes are not padded to two
      digits, so a `DDMM.mmmmmm` reader takes the field for 1 degree 3 minutes. */
  lemma DdmUnpaddedMinutes()
    ensures DdToDdm(10.05) == "103.000000"
    ensures ReadDdm(DdToDdm(10.05)) == Some(Ddm(1, 3 * Micro))
  {
    assert Trunc(10.05) == 10 && Minutes(10.05) == 3 as real;
    DdmOfWholeMinutes(10.05, 3);
    ReadOneDegreeThreeMinutes();
    hide DdToDdm, Minutes, Trunc;
    assert NatText(3) == "3" && FormatInt(10, 0) == "10";
  }

  lemma ReadOneDegreeThreeMinutes()
    ensures ReadDdm("103.000000") == Some(Ddm(1, 3 * Micro))
  {
    var s := "103.000000";
    assert s[..|s| - 9] == "1" && s[|s| - 9..|s| - 7] == "03";
    assert s[|s| - 6..] == Zeros(6);
    assert s[..|s| - 7] == "103";
    assert DigitsValue("1") == 1 && DigitsValue("03") == 3;
    ZerosValue(6);
  }

  lemma DdmTwentyAndAQuarter()
    ensures DdToDdm(20.25) == "2015.000000"
  {
    assert Trunc(20.25) == 20 && Minutes(20.25) == 15 as real;
    DdmOfWholeMinutes(20.25, 15);
    hide DdToDdm, Minutes, Trunc;
    assert NatText(15) == "15" && FormatInt(20, 0) == "20";
  }

  /** The longitude field of 20.25 degrees west. */
  lemma LongitudeWest()
    ensures LongitudeField(-20.25) == "02015.000000"
  {
    DdmTwentyAndAQuarter();
    hide DdToDdm;
    assert -(-20.25) == 20.25;
  }

  /** The longitude field of 20.25 degrees east: the negated value is encoded
      after the literal "0", giving "0-". */
  lemma LongitudeEast()
    ensures LongitudeField(20.25) == "0-2015.000000"
  {
    assert Trunc(-20.25) == -20 && Minutes(-20.25) == 15 as real;
    DdmOfWholeMinutes(-20.25, 15);
    hide DdToDdm, Minutes, Trunc;
    assert NatText(15) == "15" && FormatInt(-20, 0) == "-20";
  }

  /** A degree value between -1 and 0 prints its whole degrees as "0": the
      sign is lost, as `%i` of `int(deg)` gives. */
  lemma SmallNegativeLosesSign(deg: real)
    requires -1.0 < deg < 0.0
    ensures DdToDdm(deg)[0] == '0'
  {
    assert Trunc(deg) == 0;
  }
}
