/** The declination annotation of the CHS rose: the declination in whole degrees with an
    optional half mark and hemisphere, the reference year, and the annual change in minutes. */
module Declination {
  import opened Js

  /** The half-degree mark follows whole degrees when `d % 1 >= 0.5`. Because JavaScript's
      remainder keeps the sign of d, a negative declination never gets it. */
  predicate HasHalfMark(d: real)
    ensures HasHalfMark(d) <==> 0.0 <= d && d - Floor(d) as real >= 0.5
  {
    Rem1(d) >= 0.5
  }

  /** The declination label: the truncated degree padded to three characters with '0',
      " ½" when the half mark applies, the degree sign, "E " or "W ", then the year. */
  function DeclinationText(d: real, year: string): string
  {
    PadStart(IntStr(Trunc(d)), 3, '0')
    + (if HasHalfMark(d) then " \U{BD}" else "")
    + "\U{B0}"
    + (if d >= 0.0 then "E " else "W ")
    + year
  }

  /** Builds the declination label by successive appends, as the renderer does. */
  method DeclinationLabel(d: real, year: string) returns (strDec: string)
    ensures strDec == DeclinationText(d, year)
  {
    strDec := IntStr(Trunc(d));
    strDec := PadStart(strDec, 3, '0');
    ghost var padded := strDec;
    if Rem1(d) >= 0.5 {
      strDec := strDec + " \U{BD}";
    }
    assert strDec == padded + (if HasHalfMark(d) then " \U{BD}" else "");
    strDec := strDec + "\U{B0}";
    ghost var marked := strDec;
    if d >= 0.0 {
      strDec := strDec + "E ";
    } else {
      strDec := strDec + "W ";
    }
    assert strDec == marked + (if d >= 0.0 then "E " else "W ");
    strDec := strDec + year;
  }

  /** The label text, split into its parts: at least three characters of zero-padded
      degree ending in the decimal digits of trunc(d), then the half mark, the degree sign,
      the hemisphere and the year. */
  lemma DeclinationTextParts(d: real, year: string)
    ensures var t, deg := DeclinationText(d, year), PadStart(IntStr(Trunc(d)), 3, '0');
      var half := if 0.0 <= d && d - Floor(d) as real >= 0.5 then " \U{BD}" else "";
      && t == deg + half + "\U{B0}" + (if d >= 0.0 then "E " else "W ") + year
      && |deg| >= 3
      && deg[|deg| - |IntStr(Trunc(d))|..] == IntStr(Trunc(d))
  {
  }

  /** The label for a declination of 10 degrees east in 2024, the worked example. */
  lemma DeclinationTextTen()
    ensures DeclinationText(10.0, "2024") == "010\U{B0}E 2024"
  {
    var digits := IntStr(Trunc(10.0));
    assert digits == "10" by {
      assert Trunc(10.0) == 10;
      assert DigitChar(1) == '1' && DigitChar(0) == '0';
      assert NatStr(10) == NatStr(1) + [DigitChar(0)];
    }
    assert PadStart(digits, 3, '0') == "010" by {
      assert PadStart("10", 3, '0') == PadStart("010", 3, '0');
    }
    assert !HasHalfMark(10.0);
    assert DeclinationText(10.0, "2024") == "010" + "" + "\U{B0}" + "E " + "2024";
  }

  /** A half degree gets the half mark after the padded whole degrees. */
  lemma DeclinationTextHalf()
    ensures DeclinationText(7.5, "2024") == "007 \U{BD}\U{B0}E 2024"
  {
    assert Trunc(7.5) == 7;
    assert PadStart("7", 3, '0') == PadStart("07", 3, '0');
    assert PadStart("07", 3, '0') == PadStart("007", 3, '0');
  }

  /** A negative declination pads its minus sign literally and never gets the half mark. */
  lemma DeclinationTextNegative()
    ensures DeclinationText(-5.5, "2024") == "0-5\U{B0}W 2024"
  {
    assert Trunc(-5.5) == -5;
    assert IntStr(-5) == "-5";
    assert PadStart("-5", 3, '0') == PadStart("0-5", 3, '0');
  }

  /** A declination in (-1, 0) truncates to zero, printed "0", and is still west. */
  lemma DeclinationTextSmallWest()
    ensures DeclinationText(-0.7, "") == "000\U{B0}W "
  {
    assert Trunc(-0.7) == 0;
    assert PadStart("0", 3, '0') == PadStart("00", 3, '0');
    assert PadStart("00", 3, '0') == PadStart("000", 3, '0');
  }

  /** The annual change rounded to whole seconds of arc. */
  function RoundedSeconds(change: real): (n: int)
    ensures n >= 0
    ensures -0.5 < n as real - 3600.0 * Abs(change) <= 0.5
  {
    Round(3600.0 * Abs(change))
  }

  /** The whole minutes of the annual change once its seconds are rounded and carried:
      the minutes digit of the rounded seconds written in base 60. */
  function ChangeMinutes(change: real): (m: int)
    ensures 0 <= m < 60
  {
    (RoundedSeconds(change) / 60) % 60
  }

  /** The direction of the annual change: west for a negative change, east otherwise
      (including no change at all). */
  function ChangeDirection(change: real): (dir: string)
    ensures dir == "W" <==> change < 0.0
    ensures dir == "E" <==> change >= 0.0
  {
    if change < 0.0 then "W" else "E"
  }

  lemma FloorShift(k: int, y: real)
    ensures Floor(k as real + y) == k + Floor(y)
  {
  }

  /** A number of seconds written as degrees, minutes and seconds with minutes and seconds
      below 60 has exactly one such form. */
  lemma MixedRadix(dc: int, mc: int, sc: int)
    requires 0 <= mc < 60 && 0 <= sc < 60
    ensures (3600 * dc + 60 * mc + sc) / 60 == 60 * dc + mc
    ensures (3600 * dc + 60 * mc + sc) / 60 % 60 == mc
  {
  }

  /** Converts the annual change to degrees, minutes and seconds: floors, then the seconds
      rounded, then a carry of 60 seconds into minutes and of 60 minutes into degrees.
      The result is the rounded number of seconds in normal form, so printed minutes are
      below 60 and seconds never reach 60. */
  method AnnualChange(change: real) returns (dc: int, mc: int, sc: int, mdir: string)
    ensures dc >= 0 && 0 <= mc < 60 && 0 <= sc < 60
    ensures 3600 * dc + 60 * mc + sc == RoundedSeconds(change)
    ensures mc == ChangeMinutes(change)
    ensures mdir == ChangeDirection(change)
  {
    var a := Abs(change);
    dc := Floor(a);
    var minfloat := (a - dc as real) * 60.0;
    mc := Floor(minfloat);
    mdir := "E";
    if change < 0.0 {
      mdir := "W";
    }
    var secfloat := (minfloat - mc as real) * 60.0;
    sc := Round(secfloat);
    assert 3600.0 * a + 0.5 == (3600 * dc + 60 * mc) as real + (secfloat + 0.5);
    FloorShift(3600 * dc + 60 * mc, secfloat + 0.5);
    if sc == 60 {
      mc := mc + 1;
      sc := 0;
    }
    if mc == 60 {
      dc := dc + 1;
      mc := 0;
    }
    MixedRadix(dc, mc, sc);
  }

  /** Worked examples of the minutes: a change of 0.1 degrees is 6 minutes, and a change
      just under one degree rounds up to 3600 seconds, which carries into the degrees and
      leaves 0 minutes. */
  lemma ChangeMinutesExamples()
    ensures ChangeMinutes(0.1) == 6 && ChangeMinutes(-0.1) == 6
    ensures RoundedSeconds(0.9999) == 3600 && ChangeMinutes(0.9999) == 0
    ensures RoundedSeconds(0.25) == 900 && ChangeMinutes(0.25) == 15
  {
    assert RoundedSeconds(0.1) == 360;
    assert RoundedSeconds(-0.1) == 360;
  }
}
