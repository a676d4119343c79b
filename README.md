# numbersToWordsApp number formatter, modelled in Dafny

`NumberFormatter` turns a signed decimal amount of money into upper-case English
words, for example 123.45 into
`ONE HUNDRED AND TWENTY-THREE DOLLARS AND FORTY-FIVE CENTS`. The steps are:

- print the magnitude with two decimal places;
- cut the printed magnitude at the point;
- word each of the two digit strings from three digit-name tables (ONES, TEENS, TENS);
- join the words with `" DOLLARS AND "` and `" CENTS"`;
- put `"NEGATIVE "` in front when the amount is below zero.

A whole part of more than three digits (1000.00 and above) fails with
`UnsupportedNumberOfDigitsException`.

This project models that formatter and proves what its output says about the
amount.

The formatter has no grouping into three-digit periods, no scale names, no
singular `DOLLAR`/`CENT` and no bare `TWENTY` for 20:

- it supports three whole digits at most;
- `DOLLARS` and `CENTS` are always plural;
- a tens digit of 2 or more always yields the hyphenated `TENS-ONES`, so 20 reads
  `TWENTY-ZERO` and -120.20 reads
  `NEGATIVE ONE HUNDRED AND TWENTY-ZERO DOLLARS AND TWENTY-ZERO CENTS`.

Files:

- `DecimalDigits.dfy`: digit characters, the number a digit string spells
  (`DigitsValue`) and its decimal digits (`DecimalDigitAt`). It also holds the
  printing of a whole number (`NatToDigits`) and of two cent digits (`TwoDigits`),
  and sequence reversal.
- `Words.dfy`: `JoinWords`, which joins words with single spaces as `string.Join(" ", …)`
  does, and its inverse `SplitOnSpace`.
- `NumberFormatter.dfy`: the formatter itself. It holds:
  - the constants and tables;
  - `ColumnExists` and `IsSignificantDigit`, written as predicates;
  - the imperative methods `IsLastSignificantDigit` (a count-down loop),
    `ReverseArray`/`ReverseString` (in-place reversal of a char array),
    `ConvertStringIntegerToWords` (builds the word list by appending) and
    `ConvertNumberToWords` (builds the text with `+=`);
  - the specification functions these are proved against. `NumberWords(n)` gives
    the words of a number below 1000. `AmountInWords(amount)` gives the whole
    result.
- `NumberFormatterProperties.dfy`: the rules the words follow, the token
  structure of the text, the sign prefix and the digit limit.
- `NumberFormatterInjectivity.dfy`: different numbers, and different amounts,
  never share their words.
- `NumberFormatterExamples.dfy`: the cases of the unit tests, and the
  `TWENTY-ZERO` case.

Modelling choices:

- An amount is a sign and a natural number of cents (`Amount(negative, cents)`).
  It is "below zero" only when it is negative with a non-zero magnitude: a
  decimal minus zero is not less than zero.
- The exception is the `Err(UnsupportedNumberOfDigits(message))` case of a
  `Result`. It carries the source's message, including its missing space
  ("currentlyonly").
- Digit strings are sequences of the subtype `Digit` ('0'..'9').

## Model

| member | source | states |
|---|---|---|
| NumberFormatter.ConvertNumberToWords | numbersToWordsApp/NumberFormatter.cs:64-83 | the text built step by step is exactly `AmountInWords`: Err(UnsupportedNumberOfDigits) when the whole part has more than three digits; otherwise "NEGATIVE " only when below zero, then the whole-part words, " DOLLARS AND ", the cent words and " CENTS"; the conversion of the cents never fails |
| NumberFormatter.SplitIntegerAndFractionalAsString | numbersToWordsApp/NumberFormatter.cs:85-93 | the cent part always has exactly two digits; 100 × whole part + cent part gives back the magnitude in cents; the whole part is at least one digit and has no leading zero |
| NumberFormatter.ConvertStringIntegerToWords | numbersToWordsApp/NumberFormatter.cs:99-152 | fails with UnsupportedNumberOfDigits and the source's message if and only if the string has more than three digits; otherwise the value is below 1000 and the result is the space-joined words of the number the string spells |
| NumberFormatter.ColumnExists | numbersToWordsApp/NumberFormatter.cs:156-166 | true exactly when the string has a character at the given index |
| NumberFormatter.IsSignificantDigit | numbersToWordsApp/NumberFormatter.cs:170-180 | true exactly when the column exists and its character is not '0' |
| NumberFormatter.Amount.IsBelowZero | numbersToWordsApp/NumberFormatter.cs:68 | an amount is below zero exactly when it is negative with a non-zero magnitude, so minus zero is not below zero |
| NumberFormatter.IsLastSignificantDigit | numbersToWordsApp/NumberFormatter.cs:188-198 | true if and only if no column below the given one holds a non-zero digit |
| NumberFormatter.ReverseArray | numbersToWordsApp/NumberFormatter.cs:202-203 | the array afterwards holds its former contents in reverse order |
| NumberFormatter.ReverseString | numbersToWordsApp/NumberFormatter.cs:200-205 | the result is the input in reverse order |
| NumberFormatter.SignificantColumnIsNonZeroDigit | numbersToWordsApp/NumberFormatter.cs:154-180 | in the reversed string, column k is significant if and only if the 10^k digit of the number is non-zero, columns past the end included; an existing column holds that digit |
| NumberFormatter.ReversedColumns | numbersToWordsApp/NumberFormatter.cs:104-106 | for a string of at most three digits, the value is below 1000; in the reversed string the HUNDREDS, TENS and ONES columns are significant if and only if the number's hundreds, tens and ones digits are non-zero; an existing column holds that digit, and when the TENS column exists so does the ONES column |
| NumberFormatter.TensOnesByDigitChars | numbersToWordsApp/NumberFormatter.cs:126-143 | the tens-ones words by the digit characters the method tests: TEENS[o] when the tens character is '1', TENS[t]-ONES[o] for another non-zero tens character, ONES[o] when only the ones character is non-zero, none when both are '0' |
| NumberFormatter.TablesCoverDigits | numbersToWordsApp/NumberFormatter.cs:18-57 | ONES and TEENS cover every digit; TENS covers exactly the digits 2 to 9 |
| NumberFormatter.TableWordShapes | numbersToWordsApp/NumberFormatter.cs:18-57 | table entries are single tokens without '-'; ONES gives "ZERO" only for '0' and TEENS never does; no ONES or TEENS entry is HUNDRED, AND, NEGATIVE or DOLLARS |
| NumberFormatter.TablesInjective | numbersToWordsApp/NumberFormatter.cs:18-57 | no two digits share an entry in any table, and no ONES entry is a TEENS entry |
| DecimalDigits.NatToDigits | numbersToWordsApp/NumberFormatter.cs:92 | the printed whole part spells the number, has at least one digit and no leading zero |
| DecimalDigits.TwoDigits | numbersToWordsApp/NumberFormatter.cs:92 | the printed cents are exactly two digits spelling the cent value |
| DecimalDigits.NatToDigitsLength | numbersToWordsApp/NumberFormatter.cs:108-112 | a whole number prints with at most three digits if and only if it is below 1000 |
| DecimalDigits.ColumnIsDecimalDigit | numbersToWordsApp/NumberFormatter.cs:104-106 | counted from the least significant end, column k of a digit string is the 10^k digit of its value; columns past the end are zero digits |
| DecimalDigits.ReversedTwice | numbersToWordsApp/NumberFormatter.cs:200-205 | reversing twice gives back the original, so reversal loses nothing |
| Words.JoinWords | numbersToWordsApp/NumberFormatter.cs:150 | the words in order with one space between neighbours: the text opens with the first word, followed by a space when there is a second |
| Words.SplitJoin | numbersToWordsApp/NumberFormatter.cs:150 | for words without spaces, splitting the joined text on spaces gives back exactly the words |
| Words.JoinAppend | numbersToWordsApp/NumberFormatter.cs:150 | joining two non-empty word lists equals joining their two texts with one space |
| NumberFormatterProperties.ZeroWordsIffZero | numbersToWordsApp/NumberFormatter.cs:145-148 | the words are exactly ["ZERO"] if and only if the number is 0 |
| NumberFormatterProperties.ZeroWordsIffAllZeroDigits | numbersToWordsApp/NumberFormatter.cs:145-148 | a digit string of at most three digits words to "ZERO" if and only if every digit is '0' (the empty string included) |
| NumberFormatterProperties.HundredsThenRest | numbersToWordsApp/NumberFormatter.cs:114-148 | from 100 up, a whole number of hundreds reads exactly ONES[h] HUNDRED, and any other number reads ONES[h] HUNDRED AND followed by the words of its last two digits |
| NumberFormatterProperties.HundredsRule | numbersToWordsApp/NumberFormatter.cs:114-124 | from 100 up, the words open with ONES[h] HUNDRED, and "AND" follows if and only if the tens or ones digit is non-zero; below 100 neither HUNDRED nor AND appears |
| NumberFormatterProperties.TensOnesRule | numbersToWordsApp/NumberFormatter.cs:126-143 | the last word is TEENS[o] for tens digit 1, TENS[t]-ONES[o] (with -ZERO) for tens digit 2 or more, and ONES[o] for tens digit 0 with ones non-zero; with both zero, the words are exactly ZERO (for 0) or exactly ONES[h] HUNDRED |
| NumberFormatterProperties.WordCount | numbersToWordsApp/NumberFormatter.cs:101-151 | there are between 1 and 4 words: 2 for a hundreds part, 1 more for AND, 1 for a tens-ones part, and 1 for zero |
| NumberFormatterProperties.NumberWordsText | numbersToWordsApp/NumberFormatter.cs:150-151 | every word is a single token other than NEGATIVE, and the joined text splits back into exactly the words |
| NumberFormatterProperties.DigitLimit | numbersToWordsApp/NumberFormatter.cs:85-93 | the whole part prints with more than three digits if and only if the magnitude reaches 1000.00; the cent part never exceeds the limit |
| NumberFormatterProperties.FailsIffTooManyDigits | numbersToWordsApp/NumberFormatter.cs:108-112 | a conversion fails if and only if the printed whole part has more than three digits, and then with UnsupportedNumberOfDigits and the source's message |
| NumberFormatterProperties.NegativeIsPrefixed | numbersToWordsApp/NumberFormatter.cs:68-75 | for a non-zero magnitude, the negative amount fails exactly when the positive one does, and otherwise reads "NEGATIVE " followed by the positive amount's text |
| NumberFormatterProperties.NegativeZeroIsZero | numbersToWordsApp/NumberFormatter.cs:68-71 | a negative sign on a zero amount changes nothing |
| NumberFormatterProperties.AmountTextJoinsTokens | numbersToWordsApp/NumberFormatter.cs:64-83 | a successful conversion has a magnitude below 1000.00 and its text is the token list NEGATIVE (when below zero), whole words, DOLLARS, AND, cent words, CENTS joined with single spaces |
| NumberFormatterProperties.AmountText | numbersToWordsApp/NumberFormatter.cs:64-83 | a successful text is the amount's token list (NEGATIVE?, whole words, DOLLARS, AND, cent words, CENTS) joined with spaces, and splits back into exactly that list |
| NumberFormatterProperties.NegativeIffBelowZero | numbersToWordsApp/NumberFormatter.cs:68-71 | a successful text opens with "NEGATIVE " if and only if the amount is below zero |
| NumberFormatterProperties.DigitLimitBoundary | numbersToWordsApp/NumberFormatter.cs:108-112 | 999.99 of either sign converts, and 1000.00 fails with UnsupportedNumberOfDigits |
| NumberFormatterInjectivity.HyphenatedInjective | numbersToWordsApp/NumberFormatter.cs:136 | a hyphenated tens-ones word determines its tens and ones digits |
| NumberFormatterInjectivity.TensOnesInjective | numbersToWordsApp/NumberFormatter.cs:126-143 | the tens-ones words, or their absence, determine the tens and ones digits |
| NumberFormatterInjectivity.PartsInjective | numbersToWordsApp/NumberFormatter.cs:114-143 | the hundreds words followed by the tens-ones words determine all three digits |
| NumberFormatterInjectivity.NumberWordsInjective | numbersToWordsApp/NumberFormatter.cs:99-152 | two numbers below 1000 with the same words are equal |
| NumberFormatterInjectivity.NoDollarsWord | numbersToWordsApp/NumberFormatter.cs:114-148 | "DOLLARS" is never one of the words of a number |
| NumberFormatterInjectivity.AmountInWordsInjective | numbersToWordsApp/NumberFormatter.cs:64-83 | two amounts with the same successful text have the same magnitude in cents and are both, or neither, below zero |
| NumberFormatterExamples.OnesWord | numbersToWordsApp/NumberFormatter.cs:139-143 | a number from 1 to 9 reads as the single word ONES[n] |
| NumberFormatterExamples.CompoundWord | numbersToWordsApp/NumberFormatter.cs:134-137 | a number from 20 to 99 reads as the single word TENS[t]-ONES[o] |
| NumberFormatterExamples.Example12345 | numbersToWordsApp.Tests/NumberFormatterTests.cs:16 | 123.45 has the tokens ONE HUNDRED AND TWENTY-THREE, DOLLARS AND, FORTY-FIVE, CENTS and reads them joined with single spaces, which is exactly "ONE HUNDRED AND TWENTY-THREE DOLLARS AND FORTY-FIVE CENTS" |
| NumberFormatterExamples.Example10032 | numbersToWordsApp.Tests/NumberFormatterTests.cs:17 | 100.32 has the tokens ONE HUNDRED, DOLLARS AND, THIRTY-TWO, CENTS and reads them joined with single spaces, which is exactly "ONE HUNDRED DOLLARS AND THIRTY-TWO CENTS" |
| NumberFormatterExamples.Example5700 | numbersToWordsApp.Tests/NumberFormatterTests.cs:18 | 57 has the tokens FIFTY-SEVEN, DOLLARS AND, ZERO, CENTS and reads them joined with single spaces, which is exactly "FIFTY-SEVEN DOLLARS AND ZERO CENTS" |
| NumberFormatterExamples.Example0 | numbersToWordsApp.Tests/NumberFormatterTests.cs:19 | 0 has the tokens ZERO, DOLLARS AND, ZERO, CENTS and reads them joined with single spaces, which is exactly "ZERO DOLLARS AND ZERO CENTS" |
| NumberFormatterExamples.Example10199 | numbersToWordsApp.Tests/NumberFormatterTests.cs:20 | 101.99 has the tokens ONE HUNDRED AND ONE, DOLLARS AND, NINETY-NINE, CENTS and reads them joined with single spaces, which is exactly "ONE HUNDRED AND ONE DOLLARS AND NINETY-NINE CENTS" |
| NumberFormatterExamples.ExampleTwentyZero | numbersToWordsApp/NumberFormatter.cs:134-137 | -120.20 has the tokens NEGATIVE, ONE HUNDRED AND TWENTY-ZERO, DOLLARS AND, TWENTY-ZERO, CENTS and reads them joined with single spaces |
| NumberFormatterExamples.Example12345678946 | numbersToWordsApp.Tests/NumberFormatterTests.cs:37-44 | 123456789.46 fails with UnsupportedNumberOfDigits |

## Left out

- `numbersToWordsApp/Default.aspx.cs` is not part of this model. It is the web page: it parses the input with `Convert.ToDecimal`, handles `FormatException` and shows the text or message in a label. All of that is UI and I/O.
- Printing with `decimal.ToString("0.00")` is left out: .NET library code whose rounding of a third decimal place and whose culture-dependent decimal separator cannot be seen. The amount is taken as an exact whole number of cents. `SplitIntegerAndFractionalAsString` models the output as printed with a '.' separator. So 123456789.456 appears here as 12345678946 cents (123456789.46).
- `Math.Abs` and the `decimal` type are represented by the sign and magnitude of `Amount`. The range limit of `decimal` (about 7.9 × 10^28) is not modelled: every magnitude of 1000.00 or more fails anyway.
- The exception classes (`UnsupportedNumberOfDigitsException` derived from `ApplicationException`) become the `Err` case of a `Result`. Unwinding through callers is not modelled.
- `KeyNotFoundException` from a dictionary lookup of a non-digit character cannot arise. The digit strings come from printing a number, and the model's `Digit` type holds only '0'..'9'.
- `List<string>` and `string` building are modelled as values: the word list is a sequence the method reassigns, and the text is a string it extends. Sharing and aliasing of those objects are not captured. `new string(char[])` is the array's contents as a sequence.
