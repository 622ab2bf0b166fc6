/**
 * The OnlyTime codec: a time of day as an "HH<sep>MM" string on one side and
 * a count of minutes since midnight on the other. A codec holds only its
 * separator, fixed when it is made; both conversions are pure functions of
 * their argument and that separator.
 */
module OnlyTime {
  import opened Decimal
  import opened JsString

  datatype Option<T> = None | Some(value: T)

  /** Why a string is not read as a time. */
  datatype ParseError =
    | WrongFieldCount(count: nat)   // the string does not split into exactly two fields
    | NotANumber(field: string)     // a field is not a non-empty decimal digit string

  datatype Result<T> = Ok(value: T) | Err(error: ParseError)

  datatype Codec = Codec(separator: NonEmptyString)

  /**
   * The constructor. The separator is optional; a missing one, and the empty
   * string (which JavaScript treats as false), give the default ":".
   */
  function New(separator: Option<string>): (c: Codec)
    ensures separator.Some? && separator.value != "" ==> c.separator == separator.value
    ensures separator.None? || separator.value == "" ==> c.separator == ":"
  {
    if separator.Some? && separator.value != "" then Codec(separator.value) else Codec(":")
  }

  /** Pads a number below 10 with one leading "0"; larger numbers are rendered as they are. */
  function CheckZero(n: nat): string {
    if n < 10 then "0" + Digits(n) else Digits(n)
  }

  /**
   * Reads a time: the string is split on the separator, and the first two
   * fields, read as decimal numbers, give hours * 60 + minutes.
   */
  function ToMinutes(c: Codec, time: string): Result<nat> {
    ReadFields(Split(time, c.separator))
  }

  /** Reads the fields of a split time string: exactly two numerals are accepted. */
  function ReadFields(fields: seq<string>): Result<nat> {
    if |fields| != 2 then
      Err(WrongFieldCount(|fields|))
    else if !IsNumeral(fields[0]) then
      Err(NotANumber(fields[0]))
    else if !IsNumeral(fields[1]) then
      Err(NotANumber(fields[1]))
    else
      Ok(Value(fields[0]) * 60 + Value(fields[1]))
  }

  /**
   * Writes a time: the whole hours, padded, then the separator, then the
   * remaining minutes, padded; an exact hour gets the minute field "00".
   */
  function ToTime(c: Codec, minutes: nat): string {
    var modulo := minutes % 60;
    var hours := CheckZero((minutes - modulo) / 60);
    if modulo == 0 then hours + c.separator + "00" else hours + c.separator + CheckZero(modulo)
  }

  // ---------------------------------------------------------------------------
  // Padding
  // ---------------------------------------------------------------------------

  /**
   * `CheckZero(n)` is "0" and the digit of `n` below 10, and the plain decimal
   * rendering of `n` from 10 on: a numeral denoting `n`, at least two
   * characters long, exactly two below 100.
   */
  lemma CheckZeroPads(n: nat)
    ensures n < 10 ==> CheckZero(n) == ['0', DigitChar(n)]
    ensures n >= 10 ==> CheckZero(n) == Digits(n) && CheckZero(n)[0] != '0'
    ensures IsNumeral(CheckZero(n)) && |CheckZero(n)| >= 2 && Value(CheckZero(n)) == n
    ensures n < 100 ==> |CheckZero(n)| == 2
  {
    DigitsValue(n);
    if n < 10 {
      TwoDigitValue(CheckZero(n));
    }
  }

  /** Padding the value of a two-digit field gives the field back. */
  lemma CheckZeroOfTwoDigits(d: string)
    requires |d| == 2 && AllDigits(d)
    ensures CheckZero(Value(d)) == d
  {
    TwoDigitValue(d);
    CheckZeroPads(Value(d));
    if d[0] == '0' {
      DigitCharOfValue(d[1]);
    } else {
      ValueOfLeadingNonZero(d);
      DigitsOfValue(d);
    }
  }

  // ---------------------------------------------------------------------------
  // Writing a time
  // ---------------------------------------------------------------------------

  lemma WholeHours(minutes: nat)
    ensures (minutes - minutes % 60) / 60 == minutes / 60
  {
  }

  lemma HoursAndMinutes(hours: nat, minutes: nat)
    requires minutes < 60
    ensures (hours * 60 + minutes) / 60 == hours && (hours * 60 + minutes) % 60 == minutes
  {
  }

  /**
   * The exact-hour branch agrees with the general one: a written time is
   * always the padded hours, the separator and the padded remainder.
   */
  lemma ToTimeUniform(c: Codec, minutes: nat)
    ensures ToTime(c, minutes) == CheckZero(minutes / 60) + c.separator + CheckZero(minutes % 60)
  {
    WholeHours(minutes);
    assert CheckZero(0) == "00";
  }

  /** Writing hours * 60 + minutes, for minutes below 60, pads the two numbers separately. */
  lemma ToTimeOfFields(c: Codec, hours: nat, minutes: nat)
    requires minutes < 60
    ensures ToTime(c, hours * 60 + minutes) == CheckZero(hours) + c.separator + CheckZero(minutes)
  {
    var n := hours * 60 + minutes;
    HoursAndMinutes(hours, minutes);
    ToTimeUniform(c, n);
    assert CheckZero(n / 60) == CheckZero(hours) && CheckZero(n % 60) == CheckZero(minutes);
  }

  /**
   * The layout of a written time: the padded hour count, which is not wrapped
   * at 24, then the separator, then exactly two digits giving the minutes
   * past the hour, "00" on the hour.
   */
  lemma ToTimeLayout(c: Codec, minutes: nat)
    ensures var r := ToTime(c, minutes);
      && |r| >= 2 + |c.separator| + 2
      && r[..|r| - 2 - |c.separator|] == CheckZero(minutes / 60)
      && r[|r| - 2 - |c.separator|..|r| - 2] == c.separator
      && AllDigits(r[|r| - 2..]) && Value(r[|r| - 2..]) == minutes % 60
      && (minutes % 60 == 0 ==> r[|r| - 2..] == "00")
  {
    ToTimeUniform(c, minutes);
    var h, sep, m := CheckZero(minutes / 60), c.separator, CheckZero(minutes % 60);
    CheckZeroPads(minutes / 60);
    CheckZeroPads(minutes % 60);
    var r := h + sep + m;
    assert r[..|h|] == h;
    assert r[|h|..|h| + |sep|] == sep;
    assert r[|r| - 2..] == m;
  }

  // ---------------------------------------------------------------------------
  // Reading a time
  // ---------------------------------------------------------------------------

  /**
   * What a successful read means: the string is a numeral, the separator
   * and a numeral, neither containing the separator, and the count is the
   * first times 60 plus the second. A rejected field is one of the two and is
   * not a numeral. A wrong field count is the number of separator-free
   * fields the string is made of, joined by the separator.
   */
  lemma ToMinutesMeaning(c: Codec, time: string)
    ensures ToMinutes(c, time).Ok? ==>
      exists h, m :: IsNumeral(h) && IsNumeral(m) && time == h + c.separator + m
                     && !OccursIn(c.separator, h) && !OccursIn(c.separator, m)
                     && ToMinutes(c, time).value == Value(h) * 60 + Value(m)
    ensures ToMinutes(c, time).Err? && ToMinutes(c, time).error.NotANumber? ==>
      var f := ToMinutes(c, time).error.field;
      !IsNumeral(f) && exists h, m :: time == h + c.separator + m && (f == h || f == m)
    ensures ToMinutes(c, time).Err? && ToMinutes(c, time).error.WrongFieldCount? ==>
      var n := ToMinutes(c, time).error.count;
      n != 2 && exists fields :: |fields| == n && SeparatorFree(c.separator, fields)
                                 && Join(fields, c.separator) == time
  {
    var fields := Split(time, c.separator);
    JoinSplit(time, c.separator);
    SplitFieldsFree(time, c.separator);
    if |fields| == 2 {
      var h, m := fields[0], fields[1];
      assert time == h + c.separator + m;
    }
  }

  /** No field contains the separator. */
  predicate SeparatorFree(sep: string, fields: seq<string>) {
    forall i :: 0 <= i < |fields| ==> !OccursIn(sep, fields[i])
  }

  /**
   * A separator that cannot start inside a digit field, so that the split
   * cuts right after the hour digits: its first character is not a digit.
   * This is enough for the round trips, not necessary (`"0:"` also works).
   */
  predicate NonDigitStart(sep: NonEmptyString) {
    !IsDigit(sep[0])
  }

  lemma NotInDigits(x: char, s: string)
    requires !IsDigit(x) && AllDigits(s)
    ensures x !in s
  {
  }

  lemma ToMinutesOfTwoFields(c: Codec, h: string, m: string)
    requires c.separator[0] !in h && c.separator[0] !in m
    ensures ToMinutes(c, h + c.separator + m) == ReadFields([h, m])
  {
    SplitTwoFields(h, c.separator, m);
  }

  lemma ReadTwoNumerals(h: string, m: string)
    requires IsNumeral(h) && IsNumeral(m)
    ensures ReadFields([h, m]) == Ok(Value(h) * 60 + Value(m))
  {
  }

  /** Two numerals joined by a digit-free separator are read as hours * 60 + minutes. */
  lemma ToMinutesOfFields(c: Codec, h: string, m: string)
    requires NonDigitStart(c.separator)
    requires IsNumeral(h) && IsNumeral(m)
    ensures ToMinutes(c, h + c.separator + m) == Ok(Value(h) * 60 + Value(m))
  {
    NotInDigits(c.separator[0], h);
    NotInDigits(c.separator[0], m);
    ToMinutesOfTwoFields(c, h, m);
    ReadTwoNumerals(h, m);
  }

  /**
   * For a digit-free separator, exactly the strings made of a numeral, the
   * separator and a numeral are read as times.
   */
  lemma ToMinutesAcceptsExactly(c: Codec, time: string)
    requires NonDigitStart(c.separator)
    ensures ToMinutes(c, time).Ok? <==>
      exists h, m :: IsNumeral(h) && IsNumeral(m) && time == h + c.separator + m
  {
    ToMinutesMeaning(c, time);
    if exists h, m :: IsNumeral(h) && IsNumeral(m) && time == h + c.separator + m {
      var h, m :| IsNumeral(h) && IsNumeral(m) && time == h + c.separator + m;
      ToMinutesOfFields(c, h, m);
    }
  }

  // ---------------------------------------------------------------------------
  // Round trips and order
  // ---------------------------------------------------------------------------

  /** Minutes to string to minutes gives the count back, for every count. */
  lemma MinutesRoundTrip(c: Codec, minutes: nat)
    requires NonDigitStart(c.separator)
    ensures ToMinutes(c, ToTime(c, minutes)) == Ok(minutes)
  {
    var h, m := CheckZero(minutes / 60), CheckZero(minutes % 60);
    CheckZeroPads(minutes / 60);
    CheckZeroPads(minutes % 60);
    ToTimeUniform(c, minutes);
    ToMinutesOfFields(c, h, m);
    assert Value(h) * 60 + Value(m) == minutes;
  }

  /** A string of two digits, the separator and two digits whose minute value is at most 59. */
  predicate IsPaddedTime(sep: string, s: string) {
    && |s| == 2 + |sep| + 2
    && AllDigits(s[..2])
    && s[2..2 + |sep|] == sep
    && AllDigits(s[2 + |sep|..])
    && Value(s[2 + |sep|..]) <= 59
  }

  /** A padded time in the 24-hour format: its hour field is at most 23. */
  predicate IsClockTime(sep: string, s: string) {
    IsPaddedTime(sep, s) && Value(s[..2]) <= 23
  }

  function HourOf(sep: string, s: string): nat
    requires IsPaddedTime(sep, s)
  {
    Value(s[..2])
  }

  function MinuteOf(sep: string, s: string): nat
    requires IsPaddedTime(sep, s)
  {
    Value(s[2 + |sep|..])
  }

  /** A padded time is its hour field, the separator and its minute field. */
  lemma PaddedTimeFields(sep: string, s: string)
    requires IsPaddedTime(sep, s)
    ensures s == s[..2] + sep + s[2 + |sep|..]
  {
    assert s == s[..2] + s[2..2 + |sep|] + s[2 + |sep|..];
  }

  /** A padded time is read as its hour field * 60 + its minute field. */
  lemma ToMinutesOfPaddedTime(c: Codec, s: string)
    requires NonDigitStart(c.separator) && IsPaddedTime(c.separator, s)
    ensures ToMinutes(c, s) == Ok(HourOf(c.separator, s) * 60 + MinuteOf(c.separator, s))
  {
    PaddedTimeFields(c.separator, s);
    ToMinutesOfFields(c, s[..2], s[2 + |c.separator|..]);
  }

  /** A padded time is written back from its hour field * 60 + its minute field. */
  lemma ToTimeOfPaddedTime(c: Codec, s: string)
    requires IsPaddedTime(c.separator, s)
    ensures ToTime(c, HourOf(c.separator, s) * 60 + MinuteOf(c.separator, s)) == s
  {
    var h, m := s[..2], s[2 + |c.separator|..];
    ToTimeOfFields(c, Value(h), Value(m));
    CheckZeroOfTwoDigits(h);
    CheckZeroOfTwoDigits(m);
    PaddedTimeFields(c.separator, s);
  }

  /** String to minutes to string gives a padded time back unchanged. */
  lemma TimeRoundTrip(c: Codec, s: string)
    requires NonDigitStart(c.separator) && IsPaddedTime(c.separator, s)
    ensures ToMinutes(c, s).Ok? && ToTime(c, ToMinutes(c, s).value) == s
  {
    var n := HourOf(c.separator, s) * 60 + MinuteOf(c.separator, s);
    ToMinutesOfPaddedTime(c, s);
    ToTimeOfPaddedTime(c, s);
    assert ToMinutes(c, s) == Ok(n) && ToTime(c, n) == s;
  }

  /** A 24-hour time is read as a count of 0 to 1439. */
  lemma ClockTimeRead(c: Codec, s: string)
    requires NonDigitStart(c.separator) && IsClockTime(c.separator, s)
    ensures ToMinutes(c, s).Ok? && ToMinutes(c, s).value < 24 * 60
  {
    ToMinutesOfPaddedTime(c, s);
  }

  /** A count of 0 to 1439 is written as a 24-hour time, whatever the separator. */
  lemma ClockTimeWrite(c: Codec, minutes: nat)
    requires minutes < 24 * 60
    ensures IsClockTime(c.separator, ToTime(c, minutes))
  {
    var sep := c.separator;
    var h, m := CheckZero(minutes / 60), CheckZero(minutes % 60);
    CheckZeroPads(minutes / 60);
    CheckZeroPads(minutes % 60);
    ToTimeUniform(c, minutes);
    var r := h + sep + m;
    assert r[..2] == h && r[2..2 + |sep|] == sep && r[2 + |sep|..] == m;
  }

  /** Time-of-day order on padded times: an earlier hour, or the same hour and an earlier minute. */
  predicate EarlierInDay(sep: string, s1: string, s2: string)
    requires IsPaddedTime(sep, s1) && IsPaddedTime(sep, s2)
  {
    || HourOf(sep, s1) < HourOf(sep, s2)
    || (HourOf(sep, s1) == HourOf(sep, s2) && MinuteOf(sep, s1) < MinuteOf(sep, s2))
  }

  /**
   * Comparing the minute counts compares the times: the counts are in the
   * same order as the times of day, and equal exactly for equal strings.
   */
  lemma OrderPreserved(c: Codec, s1: string, s2: string)
    requires NonDigitStart(c.separator)
    requires IsClockTime(c.separator, s1) && IsClockTime(c.separator, s2)
    ensures ToMinutes(c, s1).Ok? && ToMinutes(c, s2).Ok?
    ensures ToMinutes(c, s1).value < ToMinutes(c, s2).value <==> EarlierInDay(c.separator, s1, s2)
    ensures ToMinutes(c, s1).value == ToMinutes(c, s2).value <==> s1 == s2
  {
    ToMinutesOfPaddedTime(c, s1);
    ToMinutesOfPaddedTime(c, s2);
    TimeRoundTrip(c, s1);
    TimeRoundTrip(c, s2);
  }

  // ---------------------------------------------------------------------------
  // The documented examples
  // ---------------------------------------------------------------------------

  /** Reading two two-digit fields, digit by digit. */
  lemma ReadTwoDigitFields(c: Codec, h: string, m: string, time: string)
    requires NonDigitStart(c.separator)
    requires |h| == 2 && AllDigits(h) && |m| == 2 && AllDigits(m)
    requires time == h + c.separator + m
    ensures ToMinutes(c, time) ==
      Ok((DigitValue(h[0]) * 10 + DigitValue(h[1])) * 60 + DigitValue(m[0]) * 10 + DigitValue(m[1]))
  {
    TwoDigitValue(h);
    TwoDigitValue(m);
    ToMinutesOfFields(c, h, m);
  }

  /** The module's own example, with the default codec: "01:01" is read as 61 minutes... */
  lemma ExampleReadOneOhOne()
    ensures ToMinutes(New(None), "01:01") == Ok(61)
  {
    ReadTwoDigitFields(New(None), "01", "01", "01:01");
  }

  /** ... and 61 minutes are written "01:01". */
  lemma ExampleWriteOneOhOne()
    ensures ToTime(New(None), 61) == "01:01"
  {
    ToTimeOfFields(New(None), 1, 1);
  }

  lemma ExampleTwelveTwelve()
    ensures ToMinutes(New(None), "12:12") == Ok(732)
  {
    ReadTwoDigitFields(New(None), "12", "12", "12:12");
  }

  lemma ExampleTwoOhNine()
    ensures ToTime(New(None), 129) == "02:09"
  {
    ToTimeOfFields(New(None), 2, 9);
  }

  lemma ExampleReadMidnight()
    ensures ToMinutes(New(None), "00:00") == Ok(0)
  {
    ReadTwoDigitFields(New(None), "00", "00", "00:00");
  }

  lemma ExampleWriteMidnight()
    ensures ToTime(New(None), 0) == "00:00"
  {
    ToTimeOfFields(New(None), 0, 0);
  }

  /** A count below an hour gets the hour field "00". */
  lemma ExampleOneMinute()
    ensures ToTime(New(None), 1) == "00:01"
  {
    ToTimeOfFields(New(None), 0, 1);
  }

  /** A codec made with "-" writes 61 minutes as "01-01"... */
  lemma ExampleWriteDash()
    ensures ToTime(New(Some("-")), 61) == "01-01"
  {
    ToTimeOfFields(New(Some("-")), 1, 1);
  }

  /** ... and reads "01-01" as 61 minutes. */
  lemma ExampleReadDash()
    ensures ToMinutes(New(Some("-")), "01-01") == Ok(61)
  {
    ReadTwoDigitFields(New(Some("-")), "01", "01", "01-01");
  }

  /** Counts of a day or more keep their hour count: 1500 minutes is "25:00". */
  lemma ExampleNoWrap()
    ensures ToTime(New(None), 1500) == "25:00"
  {
    ToTimeOfFields(New(None), 25, 0);
    assert Digits(25) == "25";
  }

  /** An hour count of 100 or more is written with all its digits: 6000 minutes is "100:00". */
  lemma ExampleThreeDigitHours()
    ensures ToTime(New(None), 6000) == "100:00"
  {
    CheckZeroHundred();
    ToTimeOfFields(New(None), 100, 0);
  }

  lemma CheckZeroHundred()
    ensures CheckZero(100) == "100"
  {
    assert Digits(10) == "10";
  }

  /** A separator may hold a digit after its first character: ":1" still round-trips 61. */
  lemma ExampleDigitAfterColon()
    ensures ToMinutes(New(Some(":1")), ToTime(New(Some(":1")), 61)) == Ok(61)
  {
    MinutesRoundTrip(New(Some(":1")), 61);
  }

  /** With the separator "1", the count 61 is written "01101"... */
  lemma ExampleWriteDigitSeparator()
    ensures ToTime(New(Some("1")), 61) == "01101"
  {
    ToTimeOfFields(New(Some("1")), 1, 1);
  }

  /** Splitting "01101" on "1" gives four fields: "0", "", "0" and "". */
  lemma SplitOnDigitSeparator()
    ensures Split("01101", "1") == ["0", "", "0", ""]
  {
    SplitTail();
    SplitAfterField("0", "1", "101");
    assert "01101" == "0" + "1" + "101";
  }

  /** The last three characters of "01101" split on "1" into "", "0" and "". */
  lemma SplitTail()
    ensures Split("101", "1") == ["", "0", ""]
  {
    SplitLastField();
    SplitAfterField("", "1", "01");
    assert "101" == "" + "1" + "01";
  }

  /** The last two characters of "01101" split on "1" into "0" and "". */
  lemma SplitLastField()
    ensures Split("01", "1") == ["0", ""]
  {
    SplitAfterField("0", "1", "");
    assert "01" == "0" + "1" + "";
  }

  /**
   * ... which splits into four fields: a separator that can occur inside the
   * digit fields, such as "1", breaks the round trip.
   */
  lemma DigitSeparatorBreaksRoundTrip()
    ensures ToMinutes(New(Some("1")), ToTime(New(Some("1")), 61)) == Err(WrongFieldCount(4))
  {
    ExampleWriteDigitSeparator();
    SplitOnDigitSeparator();
  }
}
