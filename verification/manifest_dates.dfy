/** The date #defines mkversion.c derives from each `D ` card of the Fossil manifest:
    MANIFEST_DATE, MANIFEST_YEAR, MANIFEST_ISODATE, MANIFEST_NUMERIC_DATE and
    MANIFEST_NUMERIC_TIME. */
module ManifestDates {
  import opened CText

  /** The five values printed for one `D ` line. */
  datatype DateDefines = DateDefines(
    date: string,
    year: string,
    isoDate: string,
    numericDate: string,
    numericTime: string)

  /** A manifest line that begins with the two characters `D `. */
  predicate IsDateLine(b: string) { |b| >= 2 && b[0] == 'D' && b[1] == ' ' }

  /** A `D ` line long enough that every fixed offset read from it lies inside its own text. */
  predicate WellFormedDateLine(b: string) { IsDateLine(b) && |b| >= 21 && NoNul(b) }

  /** `s` with its leading '0' characters removed (all of them, even when nothing is left). */
  function StripZeros(s: string): (r: string)
    ensures |r| <= |s| && r == s[|s| - |r|..]
    ensures forall i :: 0 <= i < |s| - |r| ==> s[i] == '0'
    ensures r == [] || r[0] != '0'
  {
    if s != [] && s[0] == '0' then StripZeros(s[1..]) else s
  }

  /** Leading zeros do not change the value of a digit string. */
  lemma {:induction false} StripZerosValue(s: string)
    requires AllDigits(s)
    ensures AllDigits(StripZeros(s)) && Value(StripZeros(s)) == Value(s)
  {
    if s != [] && s[0] == '0' {
      var rest := s[1..];
      assert AllDigits(rest);
      assert s == "0" + rest;
      ValueZero();
      ValueAppend("0", rest);
      assert Value(s) == 0 * Pow10(|rest|) + Value(rest);
      StripZerosValue(rest);
    }
  }

  /** The scan over the digit buffer that skips its leading '0' characters (mkversion.c:135). */
  method StripLeadingZeros(d: string) returns (r: string)
    ensures r == StripZeros(d)
  {
    var k := 0;
    while k < |d| && d[k] == '0'
      invariant 0 <= k <= |d|
      invariant StripZeros(d[k..]) == StripZeros(d)
    {
      assert d[k..][1..] == d[k + 1..];
      k := k + 1;
    }
    r := d[k..];
  }

  /** A string of zeros strips to nothing. */
  lemma StripZerosOfZeros(s: string)
    requires forall i :: 0 <= i < |s| ==> s[i] == '0'
    ensures StripZeros(s) == []
  {
  }

  /** The digits of a time `a:b:c` whose fields are digit strings are the fields run together. */
  lemma ClockDigits(a: string, b: string, c: string)
    requires AllDigits(a) && AllDigits(b) && AllDigits(c)
    ensures Digits(a + ":" + b + ":" + c) == a + b + c
  {
    assert Digits(":") == [] by { assert ":"[..0] == []; }
    DigitsOfDigitString(a);
    DigitsOfDigitString(b);
    DigitsOfDigitString(c);
    DigitsAppend(a, ":");
    DigitsAppend(a + ":", b);
    DigitsAppend(a + ":" + b, ":");
    DigitsAppend(a + ":" + b + ":", c);
  }

  /** The digits of the time field of a midnight check-in. */
  lemma MidnightDigits()
    ensures Digits("00:00:00") == "000000"
  {
    ClockDigits("00", "00", "00");
    assert "00" + ":" + "00" + ":" + "00" == "00:00:00";
    assert "00" + "00" + "00" == "000000";
  }

  /** As written, a check-in at 00:00:00 leaves MANIFEST_NUMERIC_TIME with an empty value. */
  lemma MidnightNumericTimeIsEmpty()
    ensures StripZeros(Digits("00:00:00")) == []
  {
    MidnightDigits();
    var zeros := "000000";
    assert zeros[0] == zeros[1] == zeros[2] == zeros[3] == zeros[4] == zeros[5] == '0';
    StripZerosOfZeros(zeros);
  }

  /** MANIFEST_NUMERIC_TIME as a C integer literal: the digits without leading zeros, and "0"
      when nothing is left (the corrected form of mkversion.c:135-136). */
  function NumericTime(d: string): (r: string)
    ensures r != [] && (r == "0" || r[0] != '0')
    ensures AllDigits(d) ==> AllDigits(r)
  {
    var t := StripZeros(d);
    if t == [] then "0" else t
  }

  /** The corrected MANIFEST_NUMERIC_TIME is a digit string denoting the same number as the
      time digits. */
  lemma NumericTimeValue(d: string)
    requires AllDigits(d)
    ensures AllDigits(NumericTime(d)) && Value(NumericTime(d)) == Value(d)
  {
    StripZerosValue(d);
    if StripZeros(d) == [] {
      ValueZero();
    }
  }

  /** The values printed for the well-formed `D ` line `b`, MANIFEST_NUMERIC_TIME in its
      corrected form: it differs from what mkversion.c:135-136 prints only where that
      value is empty. */
  function DateOf(b: string): (d: DateDefines)
    requires WellFormedDateLine(b)
    ensures |d.date| == 19 && d.year == d.date[..4]
    ensures AllDigits(d.isoDate) && AllDigits(d.numericDate) && AllDigits(d.numericTime)
    ensures StripZeros(Digits(b[13..21])) != [] ==> d.numericTime == StripZeros(Digits(b[13..21]))
    ensures StripZeros(Digits(b[13..21])) == [] ==> d.numericTime == "0"
  {
    var date := b[2..12] + " " + b[13..21];
    assert date[..4] == b[2..6];
    var time := Digits(b[13..21]);
    DateDefines(date, b[2..6], Digits(b[2..21]), Digits(b[2..12]), NumericTime(time))
  }

  /** When the character between the date and the time is not a digit, the ISO date is the
      numeric date followed by the time digits. */
  lemma IsoDateIsDateThenTime(b: string)
    requires WellFormedDateLine(b) && !IsDigit(b[12])
    ensures |DateOf(b).year| == 4 && |DateOf(b).date| == 19
    ensures DateOf(b).isoDate == DateOf(b).numericDate + Digits(b[13..21])
  {
    assert b[2..21] == b[2..12] + [b[12]] + b[13..21];
    DigitsAppend(b[2..12] + [b[12]], b[13..21]);
    DigitsAppend(b[2..12], [b[12]]);
    assert [b[12]][..0] == [];
  }

  /** Collects the digits among `count` characters of `b` starting at `off`
      (the three digit loops of mkversion.c:119-134). */
  method CollectDigits(b: string, off: nat, count: nat) returns (r: string)
    requires off + count <= |b|
    ensures r == Digits(b[off..off + count])
  {
    r := [];
    var k := 0;
    while k < count
      invariant 0 <= k <= count
      invariant r == Digits(b[off..off + k])
    {
      assert b[off..off + k + 1][..k] == b[off..off + k];
      if IsDigit(b[k + off]) {
        r := r + [b[k + off]];
      }
      k := k + 1;
    }
  }

  /** The body of the `D ` branch, mkversion.c:113-136, with MANIFEST_NUMERIC_TIME
      corrected to "0" where the zero skip of :135 leaves nothing. */
  method ExtractDate(b: string) returns (d: DateDefines)
    requires WellFormedDateLine(b)
    ensures d == DateOf(b)
  {
    var iso := CollectDigits(b, 2, 19);
    var numericDate := CollectDigits(b, 2, 10);
    var timeDigits := CollectDigits(b, 13, 8);
    var time := StripLeadingZeros(timeDigits);
    if time == [] {
      time := "0";
    }
    assert time == NumericTime(Digits(b[13..21]));
    d := DateDefines(b[2..12] + " " + b[13..21], b[2..6], iso, numericDate, time);
  }

  /** How many of the lines are `D ` lines. */
  function DateLineCount(lines: seq<string>): (c: nat)
    ensures c <= |lines|
  {
    if lines == [] then 0
    else DateLineCount(lines[..|lines| - 1]) + (if IsDateLine(lines[|lines| - 1]) then 1 else 0)
  }

  /** Every `D ` line of the manifest, in order, becomes one set of date values. */
  function DatesOf(lines: seq<string>): (ds: seq<DateDefines>)
    requires forall k :: 0 <= k < |lines| && IsDateLine(lines[k]) ==> WellFormedDateLine(lines[k])
    ensures |ds| == DateLineCount(lines) && |ds| <= |lines|
  {
    if lines == [] then []
    else
      var last := lines[|lines| - 1];
      if IsDateLine(last) then DatesOf(lines[..|lines| - 1]) + [DateOf(last)]
      else DatesOf(lines[..|lines| - 1])
  }

  /** The manifest read loop of mkversion.c:112-138, over the lines `fgets` delivers (with
      the corrected MANIFEST_NUMERIC_TIME of `ExtractDate`). */
  method ScanManifest(lines: seq<string>) returns (dates: seq<DateDefines>)
    requires forall k :: 0 <= k < |lines| && IsDateLine(lines[k]) ==> WellFormedDateLine(lines[k])
    ensures dates == DatesOf(lines)
  {
    dates := [];
    var k := 0;
    while k < |lines|
      invariant 0 <= k <= |lines|
      invariant dates == DatesOf(lines[..k])
    {
      assert lines[..k + 1][..k] == lines[..k];
      if IsDateLine(lines[k]) {
        var d := ExtractDate(lines[k]);
        dates := dates + [d];
      }
      k := k + 1;
    }
    assert lines[..k] == lines;
  }
}
