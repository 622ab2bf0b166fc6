# OnlyTime in Dafny

OnlyTime converts a time of day between two forms. One is a string such as
`"22:22"`: hours, a separator, minutes. The other is the number of minutes
since midnight, here `1342`. A number is cheaper to store than a string and
can be compared with `<`. A codec object holds only its separator, which is
fixed when it is made. The default separator is `":"`.

The model has three modules:

- `Decimal`: decimal digit strings. `Digits(n)` renders `n` as JavaScript's
  `String(n)` does for integers below 10^21 (from 10^21 on JavaScript switches
  to exponent form, `"1e+21"`). `Value(s)` reads a string of decimal digits as the
  number it denotes. Each is the inverse of the other on canonical numerals.
- `JsString`: `Split`, the part of `String.prototype.split` the codec uses
  (splitting on a non-empty string with no limit), and `Join`, which undoes
  it: joining the fields of a split gives the string back. No field of a
  split contains the separator.
- `OnlyTime`: the constructor `New`, the padding function `CheckZero`, and the
  two conversions `ToMinutes` and `ToTime`. The codec is a value
  (`datatype Codec`) because the source never changes its separator after
  construction. Both conversions are functions of their argument and the
  separator; the rest of the file proves properties of them.

`ToMinutes` returns a `Result`. A string that does not split into exactly
two fields is rejected with `WrongFieldCount`. A field that is not a
non-empty string of decimal digits is rejected with `NotANumber`. The
JavaScript code does not reject these inputs: `Number(...)` yields `NaN`,
or some other number, and arithmetic carries it on without telling the
caller. The model turns these inputs into an explicit malformed-input error
and does not reproduce the coercion. On every string the model accepts, it
computes what the code computes, as long as the field values and the result
stay below 2^53, where JavaScript's double-precision numbers start to round.

The round-trip, padded-time, clock-reading and order lemmas assume a
separator whose first character is not a decimal digit (`NonDigitStart`).
That is enough for the split to cut right after the hour digits; it is not
necessary. `ExampleDigitAfterColon` shows that `":1"` still round-trips. A
separator that can occur inside the digit fields breaks it:
`DigitSeparatorBreaksRoundTrip` shows the count 61 written with separator
`"1"` as `"01101"`, which splits into four fields.

## Model

| member | source | states |
|---|---|---|
| OnlyTime.New | onlyTime.js:18-22 | A given non-empty separator is kept; a missing or empty one gives `":"`. |
| OnlyTime.CheckZeroPads | onlyTime.js:29-33 | Below 10 the result is `"0"` followed by the digit; from 10 on it is the plain decimal rendering, with no leading zero. It is always a numeral of at least two characters that denotes `n`, and exactly two characters below 100. |
| OnlyTime.CheckZeroOfTwoDigits | onlyTime.js:29-33 | Padding the value of any two-digit field (`"07"`, `"42"`) gives the same field back. |
| OnlyTime.ToTimeUniform | onlyTime.js:52-58 | The exact-hour branch (`"00"` minutes) agrees with the general branch: every result is padded `minutes / 60`, the separator, then padded `minutes % 60`. |
| OnlyTime.ToTimeOfFields | onlyTime.js:52-58 | For a minute part below 60, writing `hours * 60 + minutes` pads the two numbers separately around the separator. |
| OnlyTime.ToTimeLayout | onlyTime.js:52-58 | A written time is the padded hour count, not wrapped at 24, then the separator, then exactly two digits whose value is `minutes % 60`, `"00"` on the hour. |
| OnlyTime.ToMinutesMeaning | onlyTime.js:41-44 | An accepted string is numeral + separator + numeral, neither numeral containing the separator, and its count is the first value * 60 + the second. A `NotANumber` error names one of the two fields, and that field is not a numeral. A `WrongFieldCount(n)` error has `n != 2`, and the string is `n` separator-free fields joined by the separator. |
| OnlyTime.ToMinutesOfFields | onlyTime.js:41-44 | With a separator that does not start with a digit, any two numerals joined by the separator are read as `Value(h) * 60 + Value(m)`. |
| OnlyTime.ToMinutesAcceptsExactly | onlyTime.js:41-44 | With a separator that does not start with a digit, a string is accepted if and only if it is numeral + separator + numeral. |
| OnlyTime.MinutesRoundTrip | onlyTime.js:41-58 | With a separator that does not start with a digit, reading what `ToTime` writes gives every minute count back. |
| OnlyTime.ToMinutesOfPaddedTime | onlyTime.js:41-44 | With a separator that does not start with a digit, a two-digit, separator, two-digit string is read as hour field * 60 + minute field. |
| OnlyTime.ToTimeOfPaddedTime | onlyTime.js:52-58 | That count is written back as the same string, for any two-digit hour field and a minute field of at most 59. |
| OnlyTime.TimeRoundTrip | onlyTime.js:41-58 | With a separator that does not start with a digit, every padded time is accepted, and writing the count it is read as gives the string back unchanged. |
| OnlyTime.ClockTimeRead | onlyTime.js:2-4 | With a separator that does not start with a digit, every 24-hour time (`"00:00"` to `"23:59"`) is read as a count below 1440. |
| OnlyTime.ClockTimeWrite | onlyTime.js:2-4 | Every count below 1440 is written as a 24-hour time, whatever the separator. |
| OnlyTime.OrderPreserved | onlyTime.js:5-6 | With a separator that does not start with a digit, for two 24-hour times, the first count is below the second exactly when the first time is earlier in the day. The counts are equal exactly when the strings are equal. |
| OnlyTime.ExampleReadOneOhOne | onlyTime.js:8-9 | The default codec reads `"01:01"` as 61. |
| OnlyTime.ExampleWriteOneOhOne | onlyTime.js:8-10 | The default codec writes 61 as `"01:01"`. |
| OnlyTime.ExampleTwelveTwelve | onlyTime.js:35-37 | `"12:12"` is read as 732. |
| OnlyTime.ExampleTwoOhNine | onlyTime.js:46-48 | 129 is written as `"02:09"`. |
| OnlyTime.ExampleReadMidnight | onlyTime.js:41-44 | `"00:00"` is read as 0. |
| OnlyTime.ExampleWriteMidnight | onlyTime.js:55-56 | 0 takes the exact-hour branch and is written `"00:00"`. |
| OnlyTime.ExampleOneMinute | onlyTime.js:53-57 | 1 is written `"00:01"`: a count below an hour gets the hour field `"00"`. |
| OnlyTime.ExampleWriteDash | onlyTime.js:18-22 | A codec made with `"-"` writes 61 as `"01-01"`. |
| OnlyTime.ExampleReadDash | onlyTime.js:41-44 | A codec made with `"-"` reads `"01-01"` as 61. |
| OnlyTime.ExampleNoWrap | onlyTime.js:52-58 | 1500 is written `"25:00"`: hours are not wrapped at 24. |
| OnlyTime.ExampleThreeDigitHours | onlyTime.js:29-33 | 6000 is written `"100:00"`: an hour count of 100 or more keeps all its digits and gets no padding. |
| OnlyTime.CheckZeroHundred | onlyTime.js:29-33 | `CheckZero(100)` is `"100"`, the number rendered unchanged. |
| OnlyTime.ExampleDigitAfterColon | onlyTime.js:41-58 | With separator `":1"`, which holds a digit after its first character, 61 is written and read back as 61. |
| OnlyTime.ExampleWriteDigitSeparator | onlyTime.js:52-57 | With separator `"1"`, 61 is written `"01101"`. |
| OnlyTime.SplitOnDigitSeparator | onlyTime.js:42 | `"01101"` split on `"1"` gives `"0"`, `""`, `"0"`, `""`. |
| OnlyTime.SplitTail | onlyTime.js:42 | `"101"` split on `"1"` gives `""`, `"0"`, `""`. |
| OnlyTime.SplitLastField | onlyTime.js:42 | `"01"` split on `"1"` gives `"0"`, `""`. |
| OnlyTime.DigitSeparatorBreaksRoundTrip | onlyTime.js:41-58 | With separator `"1"`, reading what 61 is written as is rejected with four fields: a separator that can occur inside the digit fields breaks the round trip. |
| Decimal.DigitsValue | onlyTime.js:31-32 | The string coercion of an integer below 10^21 is a canonical numeral (no superfluous leading zero) that denotes the number: one character below 10, at most two below 100. |
| Decimal.DigitsOfValue | onlyTime.js:31-32 | Rendering the value of a canonical numeral gives the numeral back. |
| Decimal.ValueOfLeadingNonZero | onlyTime.js:43 | A numeral that does not start with `'0'` denotes at least 1. |
| Decimal.TwoDigitValue | onlyTime.js:43 | A two-digit field denotes ten times its first digit plus its second. |
| JsString.Split | onlyTime.js:42 | Splitting always gives at least one field (that the fields are separator-free is `SplitFieldsFree`). |
| JsString.SplitFieldsFree | onlyTime.js:42 | No field of a split contains an occurrence of the separator: the split cuts at every occurrence. |
| JsString.FirstFieldIsPrefix | onlyTime.js:42 | The first field of a split is a prefix of the string. |
| JsString.JoinSplit | onlyTime.js:42 | Joining the fields with the separator gives the string back: splitting loses no character. |
| JsString.SplitWithoutSeparator | onlyTime.js:42 | A string without the separator's first character is a single field. |
| JsString.SplitAfterField | onlyTime.js:42 | A first field free of the separator's first character ends at the first occurrence of the separator. |
| JsString.SplitTwoFields | onlyTime.js:42 | Two fields free of the separator's first character, joined by it, split back into exactly those two fields. |

## Left out

- ToMinutes: JavaScript's `Number` coercion is not modelled. It accepts
  surrounding whitespace, signs, fractions, exponents, hexadecimal, `"Infinity"`,
  and reads the empty string as 0. The model accepts only non-empty strings of
  decimal digits and rejects everything else with `NotANumber`. The code
  returns `NaN` or a number for these strings.
- ToMinutes: the code reads only the first two fields of the split and ignores
  any further ones, and with a single field it computes `NaN`. The model rejects
  any field count other than two with `WrongFieldCount`, the same
  malformed-input error.
- ToTime: minute counts are natural numbers. Negative counts, fractional
  counts and `NaN` are inputs the code does not intend to handle, and are not modelled.
- CheckZero: the source returns the number itself, not a string, from 10 on.
  That value is only ever concatenated into a string, so the model returns its
  decimal rendering.
- New: the argument is modelled as an optional string. Non-string arguments,
  including other falsy values such as `0`, `false` and `null`, are not
  modelled. The empty string is modelled and gives the default `":"`.
- The object's method dispatch through `prototype` and the `this` binding are
  modelled as a codec value passed to each function.
- ToMinutes, ToTime: numbers are unbounded naturals. JavaScript numbers are
  doubles: `Number` rounds a field above 2^53, `h * 60 + m` rounds once
  it passes 2^53, and `String` writes integers from 10^21 on in exponent
  form. So `ToTime` of a count of 6 * 10^22 or more writes all the digits of
  the hour count, where the code writes `"1e+21"` or another exponent form.
  The model does not capture these rounding and exponent forms.
- Strings are sequences of Unicode scalar values. JavaScript strings and
  `split` work on UTF-16 code units. The two differ only for a lone surrogate,
  which the model cannot represent.
