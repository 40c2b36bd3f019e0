# tenere: field extraction from fuelling messages

tenere is a Telegram bot that logs car refuelling. A user types a free-form
message such as `1.1.2023 10L 1000km 15€`. The bot reads up to four
fields from it:

- the distance, a number followed by `km`;
- the fuel volume, a number followed by `l` or `L`;
- the cost, a number followed by `e`, `E` or `€`;
- a date, with or without a time.

A number is read by `to_float`. It accepts a decimal comma and returns NaN
for anything it cannot read. A missing value is NaN, and a missing date
becomes the time the message was sent. A message where all three numbers
are NaN is dropped. Otherwise, in a chat whose type is exactly `GROUP`, the
bot hands the record to every storage handler's `write`; in any other chat,
a supergroup included, it sends the record back as a preview.

This project models that core in Dafny:

- `Numeric` (numeric.dfy) is `to_float` over exact decimals. `None` stands
  for NaN.
- `Text` (text.dfy) holds the character classes and `str.strip()`. It also
  holds the whitespace normalisation arrow applies before parsing.
- `Suffixed` (suffixed.dfy) is the shared pattern `(\d+[,.]?\d*)\s*<unit>`
  with `re.IGNORECASE`, found at its leftmost occurrence. It defines
  `filter_km`, `filter_litres` and `filter_euros`.
- `Calendar` (calendar.dfy) is the calendar check of Python's `datetime`
  constructor. It also has the day after a date.
- `DateTimes` (datetimes.dfy) is `filter_datetime`:
  - It tries the 32 date+time formats, then the 4 date-only formats shifted
    to midday.
  - Each try is one `arrow.get(text, format)` call, with arrow's token
    widths and word boundaries.
  - The module has the loop as written and the loop as evidently intended
    (see Findings).
- `DateTimeProperties` (datetime_properties.dfy) proves the round trip for
  a date written on its own with two-digit fields, and the finding's
  witness `"33.12.2023"`.
- `DateTimeRoundTrip` (datetime_roundtrip.dfy) writes a date-time out with
  any of the 4 date formats and any of the 8 time formats, as arrow's
  `format` would. It proves that `filter_datetime` reads every valid
  date-time written that way back unchanged, with any whitespace around it
  and digit-free words set apart from it by whitespace. A date the calendar rejects gives None, and
  the loop as written raises.
- `DateTimeExamples` (datetime_roundtrip.dfy) applies those theorems to the
  texts of the date tests.
- `Records` (records.dfy) covers what `TelegramManager.echo` does with a
  message:
  - the date defaults to the send time;
  - "not all NaN" decides whether the message is kept;
  - hand the record to the storage handlers, or preview it.
- `Leftmost` (leftmost.dfy) is the left-to-right scan shared by `re.search`
  and arrow's search.

Floats are exact decimals `Decimal(mantissa, scale)`, worth
`mantissa / 10^scale`. A date-time is a civil tuple
`(year, month, day, hour, minute)` with no time zone.

## Model

| member | source | states |
|---|---|---|
| Numeric.ParseUnsignedAcceptsLiterals | tenere/main.py:29 | `float()` of an unsigned string succeeds exactly on digits with at most one dot and at least one digit |
| Numeric.ToFloat | tenere/main.py:27-31 | `to_float` gives a number exactly when the text, commas replaced by dots and whitespace stripped, is an optionally signed literal; otherwise NaN, never an exception |
| Numeric.DigitsValueAppend | tenere/main.py:29 | a digit appended to a digit string shifts its value one decimal place |
| Numeric.ReplaceCommasAppend | tenere/main.py:29 | the comma replacement distributes over concatenation |
| Numeric.ToFloatCommaIsDot | tenere/main.py:29 | a comma is read exactly as a dot: replacing commas beforehand changes nothing |
| Numeric.ToFloatOfFraction | tenere/main.py:27-31 | `[ws][sign]whole(,\|.)fraction[ws]` reads as the exact signed value `whole fraction / 10^\|fraction\|` |
| Numeric.ToFloatOfInteger | tenere/main.py:27-31 | `[ws][sign]digits[ws]` reads as the signed integer the digits spell |
| Numeric.ToFloatOfUnsigned | tenere/main.py:27-31 | a bare `whole sep fraction` reads as its exact value |
| Numeric.ParseLiteralSigned | tenere/main.py:29 | a leading `-` negates and a leading `+` keeps the value of the unsigned rest |
| Numeric.ParseLiteral | tenere/main.py:29 | `float()` of a stripped string succeeds exactly on an optionally signed literal, and the value is negative only after a `-` |
| Numeric.ParseLiteralOfFraction | tenere/main.py:29 | `float()` of `[sign]whole.fraction` is the signed value `whole fraction / 10^\|fraction\|` |
| NumericExamples.ToFloatExampleOne | tests/test.py:35 | `to_float("1")` is 1 |
| NumericExamples.ToFloatExampleTwoComma | tests/test.py:36 | `to_float("2,2")` is 2.2 |
| NumericExamples.ToFloatExampleThreeDot | tests/test.py:37 | `to_float("3.3")` is 3.3 |
| NumericExamples.ToFloatExampleFourLeading | tests/test.py:38 | `to_float("  4.4")` is 4.4 |
| NumericExamples.ToFloatExampleFiveTrailing | tests/test.py:39 | `to_float("5.5   ")` is 5.5 |
| NumericExamples.ToFloatExampleSixSurrounded | tests/test.py:40 | `to_float("   6.6   ")` is 6.6 |
| NumericExamples.ToFloatExampleSevenNegative | tests/test.py:41 | `to_float("   -7.7   ")` is -7.7 |
| NumericRejections.ToFloatRejectsForeign | tenere/main.py:27-31 | over the modelled ASCII literal grammar, any character that is not a digit, separator, sign or whitespace makes the result NaN |
| NumericRejections.ToFloatRejectsTwoSeparators | tenere/main.py:27-31 | two separators, commas or dots, make the result NaN |
| NumericRejections.ToFloatRejectsEmpty | tests/test.py:49 | `to_float("")` is NaN |
| NumericRejections.ToFloatRejectsKoira | tests/test.py:49 | `to_float("koira")` is NaN |
| NumericRejections.ToFloatRejectsSpaceAfterSign | tests/test.py:49 | `to_float("- 2")` is NaN |
| NumericRejections.ToFloatRejectsSigns | tests/test.py:49 | `to_float("+++")` is NaN |
| NumericRejections.ToFloatRejectsTwoDots | tests/test.py:49 | `to_float("1..2")` is NaN |
| NumericRejections.ToFloatRejectsTwoCommas | tests/test.py:49 | `to_float("3,,4")` is NaN |
| NumericRejections.ToFloatRejectsTrailingLetters | tests/test.py:49 | `to_float("9koira")` is NaN |
| NumericRejections.ToFloatRejectsLeadingLetters | tests/test.py:49 | `to_float("koira8")` is NaN |
| Text.DigitRunIsUnique | tenere/main.py:35 | the greedy `\d+` run ending is the one position with digits before it and a non-digit at it |
| Text.Strip | tenere/main.py:29 | `str.strip()` removes exactly the leading and trailing whitespace and leaves non-space ends |
| Text.StripSurrounded | tenere/main.py:29 | stripping `ws + core + ws` gives `core` when `core` has non-space ends |
| Text.NormalizeIsNormalized | tenere/main.py:67 | after `normalize_whitespace` the only whitespace is single plain spaces |
| Text.NormalizeKeepsNormalized | tenere/main.py:67 | normalisation leaves normalised text unchanged |
| Text.NormalizeIsIdempotent | tenere/main.py:67 | normalising twice is normalising once |
| Text.NormalizeAppend | tenere/main.py:67 | normalisation distributes over a concatenation not joined inside a whitespace run |
| Text.SpacesNormalizeToOne | tenere/main.py:67 | a non-empty run of whitespace becomes a single space |
| Text.NormalizeAfterKeepsNoDigits | tenere/main.py:67 | normalisation brings in no digits |
| Text.NormalizeAfterKeepsAbsent | tenere/main.py:67 | normalisation brings in no character other than the space |
| Text.Normalize | tenere/main.py:67 | `normalize_whitespace` never lengthens the text; what it leaves is stated by the normal-form lemmas above |
| Text.NormalizeKeepsTrailingSpace | tenere/main.py:67 | text ending in whitespace still ends in a space once normalised |
| Text.NormalizeKeepsLeadingSpace | tenere/main.py:67 | text starting with whitespace starts with a space once normalised |
| Leftmost.FirstHitFailsIffNoHit | tenere/main.py:35 | the left-to-right scan finds nothing exactly when no position qualifies |
| Leftmost.FirstHitIsLeast | tenere/main.py:35 | the scan returns the least qualifying position |
| Suffixed.SuffixedValue | tenere/main.py:34-57 | NaN exactly when the pattern matches at no start; a match yields a number, never a negative one |
| Suffixed.MatchesAtIffIsMatch | tenere/main.py:35 | greedy matching finds exactly the spelled-out matches (number, whitespace, unit), with the greedy number and whitespace |
| Suffixed.IsMatchIsGreedy | tenere/main.py:35 | backtracking never helps: any spelled-out match at a start uses the greedy number and whitespace there |
| Suffixed.SuffixedValueIsLeftmostMatch | tenere/main.py:35-38 | the value is `to_float` of the number of the leftmost match |
| Suffixed.SuffixedValueNoneIffNoMatch | tenere/main.py:37-40 | NaN exactly when no spelled-out match exists anywhere |
| Suffixed.NoMarkerNoValue | tenere/main.py:34-57 | text with no character of the unit's first class gives NaN |
| Suffixed.SuffixedValueOfSpelled | tenere/main.py:34-57 | round trip: digit-free text, a number, whitespace and a spelling of the unit give back the number's `to_float` value, whatever follows |
| Suffixed.FilterKm | tenere/main.py:34-40 | `filter_km` is NaN or a non-negative number; which one is the leftmost-match lemmas above, with the `km` class |
| Suffixed.FilterLitres | tenere/main.py:43-48 | `filter_litres` is NaN or a non-negative number, read as the lemmas above say with the `[lL]` class |
| Suffixed.FilterEuros | tenere/main.py:51-57 | `filter_euros` is NaN or a non-negative number, read as the lemmas above say with the `[e\|E\|€]` class |
| Suffixed.SuffixedValueOfInput | tests/test.py:57-66 | the tests' `number + unit` inputs give the number's value |
| Suffixed.NumeralEndIsNumeral | tenere/main.py:35 | the greedy capture of `\d+[,.]?\d*` is a numeral |
| Suffixed.ToFloatOfNumeral | tenere/main.py:38 | `to_float` of a captured numeral is a non-negative number with the digits' exact value |
| Suffixed.KmSpellings | tenere/main.py:35 | under IGNORECASE `km` matches exactly `k`/`K`/Kelvin sign followed by `m`/`M` |
| Suffixed.LitreSpellings | tenere/main.py:44 | `[lL]` matches exactly `l` and `L` |
| Suffixed.EuroSpellings | tenere/main.py:52 | `[e\|E\|€]` matches `e`, `E`, `€` and also the bar `\|` |
| Suffixed.FoldToLetter | tenere/main.py:35 | case folding sends exactly the two cases of an ASCII letter (and the Kelvin sign for `k`) to the lower-case letter |
| Suffixed.MarkersAreWellFormed | tenere/main.py:34-57 | no unit can start with a digit, separator or whitespace, so the leftmost and greedy lemmas apply to all three filters |
| SuffixedExamples.DistanceWithCommaExample | tests/test.py:10-21 | `"4,4km"` gives 4.4 km |
| SuffixedExamples.DistanceUpperCaseExample | tests/test.py:10-21 | `" 3  KM"` gives 3 km |
| SuffixedExamples.LitresExample | tests/test.py:10-21 | `"7.7 L"` gives 7.7 litres |
| SuffixedExamples.EurosExample | tests/test.py:10-21 | `"6,6 €"` gives 6.6 euros |
| SuffixedExamples.EurosBarExample | tenere/main.py:52 | `"15\|"` reads as 15 euros |
| SuffixedExamples.FooIsNaNExample | tests/test.py:22-28 | `"2 foo"` gives NaN for all three units |
| Calendar.DaysInMonth | tenere/main.py:67 | month lengths 28 to 31, 29 exactly for February of a leap year |
| Calendar.NextDay | tenere/main.py:75 | the day after a valid date is valid, and there is none only after 9999-12-31 |
| Calendar.NextDayIsSuccessor | tenere/main.py:75 | the next day is the successor in the ordinal numbering |
| Calendar.MonthsFillYear | tenere/main.py:75 | the months of a year add up to its length |
| DateTimes.MatchElements | tenere/main.py:67 | a match of a format reads every field the format names and ends inside the text |
| DateTimes.FieldsOfCons | tenere/main.py:61-62 | a format's fields are its first token's field and the fields of the rest |
| DateTimes.SearchIsLeftmost | tenere/main.py:67 | arrow's search returns the match at the least position where the format matches |
| DateTimes.SearchFailsIffNoMatch | tenere/main.py:67-69 | the search fails (ParserError) exactly when no position matches |
| DateTimes.MatchAt | tenere/main.py:67 | a bounded match at a position reads exactly the fields the format names |
| DateTimes.Search | tenere/main.py:67 | the search's result reads exactly the fields the format names |
| DateTimes.Build | tenere/main.py:67 | a built date-time is valid; hour 24 with minutes is a ParserError; hour 24 with minute 0 is 00:00 of the next day, when the calendar has one; otherwise it succeeds exactly on a valid date and time, with the fields as read |
| DateTimes.AttemptFormat | tenere/main.py:67 | an `arrow.get` call with one format that yields a date-time yields a valid one |
| DateTimes.TryFormats | tenere/main.py:64-79 | whatever either loop yields is a valid date-time |
| DateTimes.TryAsWritten | tenere/main.py:64-69 | whatever the loop as written finds is a valid date-time |
| DateTimes.ShiftTwelveHours | tenere/main.py:73-76 | shifting by 12 hours keeps validity and the minute, and adds 12 to a morning hour |
| DateTimes.FilterDatetimeAsWritten | tenere/main.py:60-81 | whatever the loop as written returns is a valid date-time |
| DateTimes.FilterDatetime | tenere/main.py:60-81 | whatever `filter_datetime` returns is a valid date-time |
| DateTimes.DateTimeFormatsAreProduct | tenere/main.py:64-65 | the 32 date+time formats are `date + " " + time` over the product, time varying fastest |
| DateTimes.TryFormatsIsFirst | tenere/main.py:64-69 | the first format that yields a date-time decides |
| DateTimes.TryFormatsFailsIffNoneParses | tenere/main.py:64-69 | the loop yields nothing exactly when no format yields a date-time |
| DateTimes.DateTimeFormatsComeFirst | tenere/main.py:64-79 | when a date+time format yields a date-time, the first such one is the answer, whatever the date-only formats say |
| DateTimes.DateFormatFields | tenere/main.py:61 | a date-only format reads day, month and year and nothing else |
| DateTimes.DateOnlyIsMidday | tenere/main.py:71-77 | a date-only result is at 12:00 |
| DateTimes.DateOnlyFallback | tenere/main.py:71-79 | with no date+time, the first date-only format that yields a date gives that date at 12:00 |
| DateTimes.FilterDatetimeNoneIff | tenere/main.py:81 | None exactly when no format of either list yields a date-time |
| DateTimes.TryAsWrittenAgrees | tenere/main.py:64-79 | where the loop as written does not raise, it agrees with the intended loop |
| DateTimes.FilterDatetimeAgreesUnlessRaised | tenere/main.py:60-81 | where `filter_datetime` as written does not raise, it agrees with the intended one |
| DateTimes.TryAsWrittenRaises | tenere/main.py:66-69 | the loop as written raises when the first format that is not a ParserError fails with another error |
| DateTimes.TryAsWrittenRaisedHasCause | tenere/main.py:66-69 | conversely, when the loop as written raises, some format fails with another error and every format before it with a ParserError |
| DateTimes.TryAsWrittenRaisesWithoutParse | tenere/main.py:66-69 | when no format yields a date-time and one fails with another error, the loop as written raises |
| DateTimes.TryAsWrittenWithoutRejection | tenere/main.py:64-69 | when no format fails with another error, the loop as written finds what the intended loop yields, and runs off its end when that yields nothing |
| DateTimes.TryFormatsIsAnAttempt | tenere/main.py:64-79 | the date-time the intended loop yields is what some one format yields |
| DateTimes.TryAsWrittenNotFoundIffUnmatched | tenere/main.py:66-69 | the loop as written runs off its end exactly when every format is a ParserError |
| DateTimes.FormatsStartWithDigits | tenere/main.py:61-62 | every format opens with a token that needs a digit |
| DateTimes.NoDigitsNoMatch | tenere/main.py:67 | a format opening with a digit token matches nowhere in digit-free text |
| DateTimes.NoDigitsNoDate | tests/test.py:103-104 | digit-free text has no date, and the loop as written ends without raising |
| DateTimeProperties.MissingLiteralNoMatch | tenere/main.py:67 | a literal the text lacks stops a match wherever it starts |
| DateTimeProperties.DateTimeFormatsNeedSpace | tenere/main.py:65 | text without a space fails every date+time format with a ParserError |
| DateTimeProperties.DateFormatReadsDate | tenere/main.py:61 | each date format reads every field of a date written `DD.MM.YYYY` |
| DateTimeProperties.RenderedDateIsFound | tenere/main.py:74 | each date-only format finds a date written `DD.MM.YYYY` with its three fields |
| DateTimeProperties.RenderedDateReadsBack | tenere/main.py:71-81 | a date written `DD.MM.YYYY` on its own reads back at 12:00 when the calendar has it and None otherwise; the loop as written raises instead |
| DateTimeProperties.DayThirtyThreeRaises | tests/test.py:108 | `"33.12.2023"` makes the loop as written raise, while the intended loop returns None |
| DateTimeProperties.DateOnlyExample | tests/test.py:91 | `"01.07.2023"` gives 2023-07-01 12:00 |
| DateTimeProperties.NoDotNoDate | tenere/main.py:61-81 | text without a dot has no date, and the loop as written ends without raising |
| DateTimeRoundTrip.RenderNumber | tenere/main.py:61-62 | a token writes its number in decimal digits, zero-padded to the token's least width, and those digits spell the number back |
| DateTimeRoundTrip.ReadsRendered | tenere/main.py:67 | a format of the same shape, reading what a format wrote, either fails or reads exactly the written fields and stops where the writing stopped |
| DateTimeRoundTrip.RenderedIsRead | tenere/main.py:67 | a format reads back what it wrote when every field fits the token's widths |
| DateTimeRoundTrip.RenderIsCompact | tenere/main.py:61-62 | a written date or time has no whitespace and no two marks in a row |
| DateTimeRoundTrip.NormalizeWritten | tenere/main.py:67 | `normalize_whitespace` on words, a written date, whitespace, a written time and words leaves the date and time as they are, joined by one space |
| DateTimeRoundTrip.OnlyAtStart | tenere/main.py:67 | in normalised text of that shape, no format that opens with `d.d.` matches anywhere but at the written date |
| DateTimeRoundTrip.SearchFindsOnly | tenere/main.py:67 | when a format can only match at one position, the search finds that match or nothing |
| DateTimeRoundTrip.DateTimeSearches | tenere/main.py:64-67 | every date+time format finds nothing or the written fields in such a text, and the format the text was written with finds them |
| DateTimeRoundTrip.DateSearches | tenere/main.py:71-74 | every date-only format finds nothing or the written date's fields in such a text |
| DateTimeRoundTrip.SpelledDateTime | tenere/main.py:64-67 | the fields a date+time format reads spell the whole date-time |
| DateTimeRoundTrip.NormalizedDateTimeReadsBack | tenere/main.py:64-69 | on normalised text, both loops over the date+time formats return the written valid date-time |
| DateTimeRoundTrip.NormalizedBadDateReadsNothing | tenere/main.py:64-79 | on normalised text with a date the calendar rejects, neither loop of the intended function yields anything, and the loop as written raises |
| DateTimeRoundTrip.WrittenDateTimeReadsBack | tenere/main.py:60-81 | round trip: a valid date-time written with any date format, whitespace and any time format, between digit-free words, is what `filter_datetime` returns, as intended and as written |
| DateTimeRoundTrip.WrittenBadDateReadsNothing | tenere/main.py:60-81 | the same text with a time in range but a date the calendar rejects gives None as intended, while the function as written raises |
| DateTimeRoundTrip.ExampleReadsBack | tenere/main.py:60-81 | a given text that splits as the round trip describes reads back its date-time |
| DateTimeRoundTrip.ExampleReadsNothing | tenere/main.py:60-81 | a given text that splits that way around a rejected date gives None as intended and raises as written |
| DateTimeExamples.OneDigitDateExample | tests/test.py:82 | `"1.1.2023 18:30"` gives 2023-01-01 18:30 |
| DateTimeExamples.PaddedExample | tests/test.py:83 | `" 1.01.2023  18:30 "` gives 2023-01-01 18:30 |
| DateTimeExamples.DottedTimeExample | tests/test.py:84 | `"01.1.2023 18.30"` gives 2023-01-01 18:30 |
| DateTimeExamples.EmbeddedExample | tests/test.py:85-88 | `"foo 01.01.2023   18:30 bar"` gives 2023-01-01 18:30 |
| DateTimeExamples.DateTimeExample | tests/test.py:89 | `"01.07.2023 18:30"` gives 2023-07-01 18:30 |
| DateTimeExamples.DayZeroExample | tests/test.py:105 | `"0.5.2023 18:30"` gives None as intended, and the function as written raises |
| DateTimeExamples.MonthThirteenExample | tests/test.py:106 | `"7.13.2023 18:30"` gives None as intended, and the function as written raises |
| Records.DateOrSent | tenere/main.py:128-129 | the record's date is the one found in the text or else the send time, and valid when the send time is |
| Records.ReadMessage | tenere/main.py:119-129 | the record's date is valid when the send time is, and no value is negative |
| Records.Decide | tenere/main.py:131-151 | a record is dropped exactly when all three values are NaN (`HasValue` fails); otherwise a chat of type `GROUP` hands that record to the storage handlers and any other chat, a supergroup included, previews it |
| Records.Echo | tenere/main.py:119-151 | the handler drops a message exactly when the record read from it has all three values NaN; otherwise that record is handed to the storage handlers from a chat of type `GROUP` and previewed from any other, a supergroup included |
| Records.EchoAsWritten | tenere/main.py:119-151 | the handler as written aborts exactly when `filter_datetime` as written raises, and otherwise does what the intended handler does |
| Records.IgnoredIffNoPatternMatches | tenere/main.py:131 | a message is dropped exactly when none of the three unit patterns matches anywhere |
| Records.NoDigitsIgnored | tenere/main.py:119-131 | digit-free text is dropped, and its date is the send time |
| Records.MessageDateDefault | tenere/main.py:128-129 | a date in the text replaces the send time, and without one the send time stays |
| RecordExamples.NumberWithoutUnitIgnored | tests/test.py:158-182 | `"2 foo"` has all three values NaN and is dropped |
| RecordExamples.DistanceHasNoOtherUnit | tenere/main.py:121-122 | `"4,4km"` has no litres and no euros |
| RecordExamples.DistanceHasNoDate | tenere/main.py:123 | `"4,4km"` has no date |
| RecordExamples.DistanceAloneIsWritten | tenere/main.py:128-141 | `"4,4km"` in a group chat is handed to the storage handlers with 4.4 km, two NaNs and the send time |
| RecordExamples.DayThirtyThreeHasNoValue | tenere/main.py:120-122 | `"33.12.2023"` has no distance, no litres and no euros |
| RecordExamples.DayThirtyThreeAbortsHandler | tenere/main.py:119-131 | `"33.12.2023"` aborts the handler as written, though the intended handler drops it |

## Left out

- The storage handler (`DatabaseHandler`), the Telegram and FastAPI plumbing, logging and `tenere/config.py` are not part of this model. `Records.Echo` returns what would be written or sent instead of writing or sending it.
- Records.Echo: is built on the intended `filter_datetime`; the handler as written, which aborts when that raises, is `Records.EchoAsWritten`. Echo says only that the record is handed to each handler's `write`. `DatabaseHandler.write` is a coroutine function (tenere/main.py:92), and tenere/main.py:134 calls it without `await`. So whether the insert at tenere/main.py:95 runs, and what reply tenere/main.py:143-146 sends, are not modelled.
- Records.ReadMessage: the send time is a civil date-time. The seconds and the UTC offset of Telegram's `message.date` are dropped.
- DateTimeExamples: `"1.foo.2023 18:30"` (tests/test.py:107) is not proved to give None. It holds digits, a dot and a space, so neither the digit-free, dot-free nor round-trip lemmas cover it. The `""` and `"foo"` cases (tests/test.py:103-104) are covered by `DateTimes.NoDigitsNoDate`.
- Floating point: values are exact decimals. Rounding to the nearest double is not modelled, and neither are the `:.2f` formats of the reply.
- Numeric.ToFloat: the literal grammar covers an optional sign, digits and at most one dot. Python's exponents (`1e3`), `inf`/`nan` spellings, underscores between digits and non-ASCII digits are not modelled. A unit pattern's capture is digits and one separator, so exponents, `inf`/`nan` and underscores cannot reach `to_float` from there. Non-ASCII digits can: `\d` in a `str` pattern matches any Unicode decimal digit, and `float()` reads them (see Text.IsDigit), so `filter_km("٣km")` is 3.0 in the source and NaN in the model.
- NumericRejections.ToFloatRejectsForeign: holds over the modelled grammar only. Python's `float()` also reads `"1e3"` (1000.0), `"1_0"` (10.0), `"inf"` and non-ASCII digits, which this lemma counts as foreign.
- Text.IsDigit: `\d` is taken as the ASCII digits. Python's `\d` on `str` also matches other Unicode decimal digits.
- Suffixed.Fold: `re.IGNORECASE` is modelled for the ASCII letters and the Kelvin sign, the only non-ASCII character that folds to a letter of the three units (`k`). Other Unicode case folding is not modelled.
- DateTimes.FilterDatetime: the result is a civil date-time with no time zone. `arrow.get` with a format returns UTC, and the `.datetime` keeps that offset. The tests expect Helsinki offsets (`+02:00`, `+03:00`) and midnight for a date on its own. This model follows the code: the fields as written, and 12:00 for a date on its own.
- DateTimes.MatchElements: arrow's format-to-regex compilation and its lookaround boundaries are modelled from arrow's documented behaviour. The token widths are DD/MM/HH/mm exactly two digits, D/M/H/m one or two, and YYYY four. At most one punctuation mark may stand between a match and the surrounding whitespace or the text's ends. The arrow library itself is not part of this model, and neither are its other tokens, locales or the `tzinfo` argument.
- DateTimes.MatchElements: each token takes the whole run of digits. That matches the regex because in every format here a token is followed by `.`, `:`, a space or the closing boundary, none of which a digit satisfies.
- The tests' `filter_suffixed_value` and `FuelingInputModel` do not exist in `tenere/main.py`. Their cases are modelled through `filter_km`/`filter_litres`/`filter_euros` and `Records.Echo`. The three `FuelingInputModel.from_text` sentences (tests/test.py:119-156) are not proved as examples.

## Findings

| source | as written | input that shows it | evidently intended | confidence | as-written member | corrected member |
|---|---|---|---|---|---|---|
| tenere/main.py:66-79 | only `arrow.parser.ParserError` is caught. A format that matches fields the calendar rejects makes arrow's `datetime(...)` call raise `ValueError`, which escapes `filter_datetime`. | `"33.12.2023"` (also `"0.5.2023 18:30"` and `"7.13.2023 18:30"`) | None, as tests/test.py:100-115 expect: a format whose fields are not a date is a miss like any other | not executed | DateTimes.FilterDatetimeAsWritten, DateTimeProperties.DayThirtyThreeRaises, DateTimeExamples.DayZeroExample, DateTimeExamples.MonthThirteenExample, Records.EchoAsWritten, RecordExamples.DayThirtyThreeAbortsHandler | DateTimes.FilterDatetime, DateTimeProperties.RenderedDateReadsBack, DateTimeRoundTrip.WrittenBadDateReadsNothing, Records.Echo |
