/**
 * The time-of-day parser of services/utils.ts. It reads "900", "9:00" or
 * "1830" as hours and minutes and returns the time as hours with the
 * minutes as a fraction, or null when the text is not such a time. The
 * result is an exact real here where the source computes a floating-point
 * number.
 */
module TimeParse {
  import opened Wrappers
  import opened JsStrings

  /** The time h:m as a number of hours. */
  function ClockValue(h: int, m: int): real {
    h as real + m as real / 60.0
  }

  /** `parseTime`: `None` stands for the source's `null`. An empty text is
      rejected; otherwise the first colon is removed and the rest is read by
      `ParseCompact`. */
  function ParseTime(timeStr: string): (r: Option<real>)
    ensures timeStr == [] ==> r == None
    ensures timeStr != [] ==> r == ParseCompact(RemoveFirst(timeStr, ':'))
    ensures r.Some? ==> 3 <= |RemoveFirst(timeStr, ':')| <= 4
    ensures r.Some? ==> 0.0 <= r.value < 24.0
    ensures r.Some? ==>
      exists h, m :: 0 <= h <= 23 && 0 <= m <= 59 && r.value == ClockValue(h, m)
  {
    if timeStr == [] then None else ParseCompact(RemoveFirst(timeStr, ':'))
  }

  /** The colon-free part of `parseTime`: a text of three or four characters
      whose last two are the minutes and whose first one or two are the hours,
      each read by `parseInt` and range-checked. */
  function ParseCompact(s: string): (r: Option<real>)
    ensures r.Some? ==> 3 <= |s| <= 4
    ensures 3 <= |s| <= 4 ==>
      (r.Some? <==>
        ParseInt(s[..|s| - 2]).Some? && ParseInt(s[|s| - 2..]).Some? &&
        0 <= ParseInt(s[..|s| - 2]).value <= 23 && 0 <= ParseInt(s[|s| - 2..]).value <= 59)
    ensures 3 <= |s| <= 4 && (ParseInt(s[..|s| - 2]).None? || ParseInt(s[|s| - 2..]).None?) ==> r == None
    ensures r.Some? ==>
      ParseInt(s[..|s| - 2]).Some? && ParseInt(s[|s| - 2..]).Some? &&
      r.value == ClockValue(ParseInt(s[..|s| - 2]).value, ParseInt(s[|s| - 2..]).value)
    ensures r.Some? ==> 0.0 <= r.value < 24.0
    ensures r.Some? ==>
      exists h, m :: 0 <= h <= 23 && 0 <= m <= 59 && r.value == ClockValue(h, m)
  {
    if |s| < 3 || |s| > 4 then None
    else
      var hours := ParseInt(s[..|s| - 2]);
      var minutes := ParseInt(s[|s| - 2..]);
      if hours.None? || minutes.None? then None
      else if hours.value < 0 || hours.value > 23 || minutes.value < 0 || minutes.value > 59 then None
      else
        var h, m := hours.value, minutes.value;
        assert 0.0 <= ClockValue(h, m) < 24.0;
        Some(ClockValue(h, m))
  }

  /** A colon-free text of decimal digits: accepted exactly when the hour and
      the minute parts are in range. */
  lemma CompactDigits(s: string)
    requires 3 <= |s| <= 4 && AllDigits(s)
    ensures ParseCompact(s) ==
      if DecimalValue(s[..|s| - 2]) <= 23 && DecimalValue(s[|s| - 2..]) <= 59
      then Some(ClockValue(DecimalValue(s[..|s| - 2]), DecimalValue(s[|s| - 2..])))
      else None
  {
    ParseIntOfDigits(s[..|s| - 2]);
    ParseIntOfDigits(s[|s| - 2..]);
  }

  /** A part that `parseInt` reads as NaN rejects the time, and a negative
      part fails the range check: "9x5" and "9:-5" give `None`. */
  lemma ExampleNotANumber()
    ensures ParseTime("9x5") == None
    ensures ParseTime("9:-5") == None
  {
    assert RemoveFirst("9x5", ':') == "9x5";
    assert "9x5"[1..] == "" + "" + "" + "x5";
    ParseIntForm("", "", "", "x5");
    assert RemoveFirst("9:-5", ':') == "9-5";
    assert "9-5"[1..] == "" + "-" + "5" + "";
    ParseIntForm("", "-", "5", "");
    DecimalValueOfOne("5");
  }

  /** `parseInt` is lenient, so texts that are not all digits can still be
      times: the hour part " 9" reads as 9, so " 905" is 9:05 ... */
  lemma ExampleLeadingSpace()
    ensures ParseTime(" 905") == Some(ClockValue(9, 5))
  {
    assert " 905" == " 9" + "05";
    assert " 9" == " " + "" + "9" + "";
    ParseIntForm(" ", "", "9", "");
    NineOhFive(" 9");
  }

  /** ... "+9" reads as 9, so "+905" is 9:05 ... */
  lemma ExampleLeadingPlus()
    ensures ParseTime("+905") == Some(ClockValue(9, 5))
  {
    assert "+905" == "+9" + "05";
    assert "+9" == "" + "+" + "9" + "";
    ParseIntForm("", "+", "9", "");
    NineOhFive("+9");
  }

  /** ... and "9." reads as 9, so "9.05" is 9:05. */
  lemma ExampleTrailingDot()
    ensures ParseTime("9.05") == Some(ClockValue(9, 5))
  {
    assert "9.05" == "9." + "05";
    assert "9." == "" + "" + "9" + ".";
    ParseIntForm("", "", "9", ".");
    NineOhFive("9.");
  }

  /** A colon-free hour part of two characters that reads as 9, followed
      by "05", is 9:05. */
  lemma NineOhFive(hour: string)
    requires |hour| == 2 && ':' !in hour
    requires ParseInt(hour) == Some(DecimalValue("9") as int)
    ensures ParseTime(hour + "05") == Some(ClockValue(9, 5))
  {
    var s := hour + "05";
    assert s[..2] == hour && s[2..] == "05";
    assert ':' !in s;
    DecimalValueOfOne("9");
    DecimalValueOfTwo("05");
    ParseIntOfDigits("05");
    assert ParseInt(s[..|s| - 2]) == Some(9) && ParseInt(s[|s| - 2..]) == Some(5);
    assert ParseCompact(s) == Some(ClockValue(9, 5));
    assert RemoveFirst(s, ':') == s;
  }

  /** A text without a colon is read as it is. */
  lemma NoColon(s: string)
    requires ':' !in s
    ensures ParseTime(s) == ParseCompact(s)
  {
  }

  /** The examples of the source's documentation comment and the
      out-of-range input "2500". */
  lemma ExampleNineOClock()
    ensures ParseTime("900") == Some(9.0)
  {
    var s := "900";
    DecimalValueOfOne(s[..1]);
    DecimalValueOfTwo(s[1..]);
    DigitExample(s, 9, 0);
  }

  lemma ExampleHalfPastSix()
    ensures ParseTime("1830") == Some(18.5)
  {
    var s := "1830";
    DecimalValueOfTwo(s[..2]);
    DecimalValueOfTwo(s[2..]);
    DigitExample(s, 18, 30);
  }

  lemma ExampleWithoutColon()
    ensures ParseTime("905") == Some(9.0 + 5.0 / 60.0)
  {
    var s := "905";
    DecimalValueOfOne(s[..1]);
    DecimalValueOfTwo(s[1..]);
    DigitExample(s, 9, 5);
  }

  lemma ExampleWithColon()
    ensures ParseTime("9:05") == Some(9.0 + 5.0 / 60.0)
  {
    ColonInsensitiveAt("9", "05", "9:05", "905");
    ExampleWithoutColon();
  }

  lemma ColonInsensitiveAt(a: string, b: string, withColon: string, without: string)
    requires ':' !in a && ':' !in b
    requires withColon == a + ":" + b && without == a + b
    ensures ParseTime(withColon) == ParseTime(without)
  {
    ColonInsensitive(a, b);
  }

  lemma ExampleHourOutOfRange()
    ensures ParseTime("2500") == None
  {
    var s := "2500";
    DecimalValueOfTwo(s[..2]);
    DecimalValueOfTwo(s[2..]);
    DigitExample(s, 25, 0);
  }

  lemma DigitExample(s: string, h: nat, m: nat)
    requires 3 <= |s| <= 4 && AllDigits(s)
    requires h == DecimalValue(s[..|s| - 2]) && m == DecimalValue(s[|s| - 2..])
    ensures ParseTime(s) == if h <= 23 && m <= 59 then Some(ClockValue(h, m)) else None
  {
    DigitText(s);
  }

  /** Removing the colon makes no difference: "H:MM" and "HMM" (and "HH:MM"
      and "HHMM") parse alike, as long as the text holds no other colon. */
  lemma ColonInsensitive(a: string, b: string)
    requires ':' !in a && ':' !in b
    ensures ParseTime(a + ":" + b) == ParseTime(a + b)
  {
    var s := a + ":" + b;
    assert s[|a|] == ':' && s[..|a|] == a;
    assert IndexOf(s, ':') == |a|;
    assert s[|a| + 1..] == b;
    assert RemoveFirst(s, ':') == a + b;
    assert ':' !in a + b;
  }

  /** The two-digit rendering of 0 <= n < 100. */
  function TwoDigits(n: int): (r: string)
    requires 0 <= n < 100
    ensures |r| == 2 && AllDigits(r) && DecimalValue(r) == n
  {
    var r := [('0' as int + n / 10) as char, ('0' as int + n % 10) as char];
    assert r[..1] == [r[0]] && r[..1][..0] == [];
    assert DecimalValue(r[..1]) == n / 10;
    r
  }

  /** "HH:MM" as a time input field gives it. */
  function FormatClock(h: int, m: int): string
    requires 0 <= h <= 23 && 0 <= m <= 59
  {
    TwoDigits(h) + ":" + TwoDigits(m)
  }

  /** Every valid "HH:MM" text parses back to the time it shows. */
  lemma ParseFormatted(h: int, m: int)
    requires 0 <= h <= 23 && 0 <= m <= 59
    ensures ParseTime(FormatClock(h, m)) == Some(ClockValue(h, m))
  {
    var hh, mm := TwoDigits(h), TwoDigits(m);
    var s := hh + mm;
    assert ParseTime(FormatClock(h, m)) == ParseTime(s) by {
      ColonInsensitive(hh, mm);
    }
    assert ParseTime(s) == Some(ClockValue(h, m)) by {
      assert s[..2] == hh && s[2..] == mm;
      DigitText(s);
    }
  }

  /** A text of three or four decimal digits is accepted exactly when its
      last two digits are a minute and the digits before them an hour. */
  lemma DigitText(s: string)
    requires 3 <= |s| <= 4 && AllDigits(s)
    ensures ParseTime(s) ==
      if DecimalValue(s[..|s| - 2]) <= 23 && DecimalValue(s[|s| - 2..]) <= 59
      then Some(ClockValue(DecimalValue(s[..|s| - 2]), DecimalValue(s[|s| - 2..])))
      else None
  {
    assert ':' !in s by {
      forall i | 0 <= i < |s| ensures s[i] != ':' { assert IsDigit(s[i]); }
    }
    NoColon(s);
    CompactDigits(s);
  }
}
