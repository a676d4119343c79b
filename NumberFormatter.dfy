/** The number-to-words formatter for money amounts below 1000.00: the digit
    name tables, the conversion of a digit string of at most three digits into
    words, the split of an amount into whole and cent digit strings, and the
    assembly "[NEGATIVE ]<words> DOLLARS AND <words> CENTS". */
module NumberFormatter {
  import opened DecimalDigits
  import opened Words

  const MAX_SUPPORTED_DIGITS := 3

  /** Columns of a reversed digit string: ones first. */
  const ONES_COLUMN := 0
  const TENS_COLUMN := 1
  const HUNDREDS_COLUMN := 2

  const ONES_MAP: map<char, string> := map[
    '0' := "ZERO", '1' := "ONE", '2' := "TWO", '3' := "THREE", '4' := "FOUR",
    '5' := "FIVE", '6' := "SIX", '7' := "SEVEN", '8' := "EIGHT", '9' := "NINE"]

  /** Keyed by the ones digit of a number from 10 to 19. */
  const TEENS_MAP: map<char, string> := map[
    '0' := "TEN", '1' := "ELEVEN", '2' := "TWELVE", '3' := "THIRTEEN", '4' := "FOURTEEN",
    '5' := "FIFTEEN", '6' := "SIXTEEN", '7' := "SEVENTEEN", '8' := "EIGHTEEN", '9' := "NINETEEN"]

  /** Keyed by a tens digit of 2 or more; there is no entry for '0' or '1'. */
  const TENS_MAP: map<char, string> := map[
    '2' := "TWENTY", '3' := "THIRTY", '4' := "FORTY", '5' := "FIFTY",
    '6' := "SIXTY", '7' := "SEVENTY", '8' := "EIGHTY", '9' := "NINETY"]

  const UNSUPPORTED_MESSAGE := "This class currentlyonly supports numbers up to 999.99"

  datatype Error = UnsupportedNumberOfDigits(message: string)

  /** A conversion either yields its value or fails with an error. */
  datatype Result<T> = Ok(value: T) | Err(error: Error)

  /** A signed money amount, exact to the cent: a sign and a magnitude in cents. */
  datatype Amount = Amount(negative: bool, cents: nat) {
    /** A negative sign on a zero magnitude is still zero, which is not below zero. */
    predicate IsBelowZero()
    {
      negative && cents > 0
    }
  }

  /** Every digit has a ONES and a TEENS entry; only digits 2 to 9 have a TENS entry. */
  lemma TablesCoverDigits(d: Digit)
    ensures d in ONES_MAP && d in TEENS_MAP
    ensures d in TENS_MAP <==> d >= '2'
  {
  }

  /** Shape of the table entries: short words with no space and no hyphen;
      only the ONES entry of '0' is "ZERO". */
  lemma TableWordShapes(d: Digit)
    ensures 3 <= |ONES_MAP[d]| <= 5 && 3 <= |TEENS_MAP[d]| <= 9
    ensures d >= '2' ==> 5 <= |TENS_MAP[d]| <= 7
    ensures IsToken(ONES_MAP[d]) && IsToken(TEENS_MAP[d]) && (d >= '2' ==> IsToken(TENS_MAP[d]))
    ensures '-' !in ONES_MAP[d] && '-' !in TEENS_MAP[d] && (d >= '2' ==> '-' !in TENS_MAP[d])
    ensures ONES_MAP[d] == "ZERO" <==> d == '0'
    ensures TEENS_MAP[d] != "ZERO"
    ensures ONES_MAP[d] !in {"HUNDRED", "AND", "NEGATIVE", "DOLLARS"}
    ensures TEENS_MAP[d] !in {"HUNDRED", "AND", "NEGATIVE", "DOLLARS"}
  {
    OnesWordShape(d);
    TeensWordShape(d);
    if d >= '2' {
      TensWordShape(d);
    }
  }

  lemma OnesWordShape(d: Digit)
    ensures 3 <= |ONES_MAP[d]| <= 5 && IsToken(ONES_MAP[d]) && '-' !in ONES_MAP[d]
    ensures ONES_MAP[d] == "ZERO" <==> d == '0'
    ensures ONES_MAP[d] !in {"HUNDRED", "AND", "NEGATIVE", "DOLLARS"}
  {
  }

  lemma TeensWordShape(d: Digit)
    ensures 3 <= |TEENS_MAP[d]| <= 9 && IsToken(TEENS_MAP[d]) && '-' !in TEENS_MAP[d]
    ensures TEENS_MAP[d] != "ZERO"
    ensures TEENS_MAP[d] !in {"HUNDRED", "AND", "NEGATIVE", "DOLLARS"}
  {
  }

  lemma TensWordShape(d: Digit)
    requires d >= '2'
    ensures 5 <= |TENS_MAP[d]| <= 7 && IsToken(TENS_MAP[d]) && '-' !in TENS_MAP[d]
  {
  }

  /** No two digits share a table entry, and no ONES entry is a TEENS entry. */
  lemma TablesInjective(a: Digit, b: Digit)
    ensures ONES_MAP[a] == ONES_MAP[b] ==> a == b
    ensures TEENS_MAP[a] == TEENS_MAP[b] ==> a == b
    ensures a >= '2' && b >= '2' && TENS_MAP[a] == TENS_MAP[b] ==> a == b
    ensures ONES_MAP[a] != TEENS_MAP[b]
  {
    OnesInjective(a, b);
    TeensInjective(a, b);
    if a >= '2' && b >= '2' {
      TensInjective(a, b);
    }
    OnesAreNotTeens(a, b);
  }

  lemma OnesInjective(a: Digit, b: Digit)
    ensures ONES_MAP[a] == ONES_MAP[b] ==> a == b
  {
  }

  lemma TeensInjective(a: Digit, b: Digit)
    ensures TEENS_MAP[a] == TEENS_MAP[b] ==> a == b
  {
  }

  lemma TensInjective(a: Digit, b: Digit)
    requires a >= '2' && b >= '2'
    ensures TENS_MAP[a] == TENS_MAP[b] ==> a == b
  {
  }

  lemma OnesAreNotTeens(a: Digit, b: Digit)
    ensures ONES_MAP[a] != TEENS_MAP[b]
  {
  }

  /** The words of the hundreds digit h: "<ONES[h]> HUNDRED", followed by
      "AND" when the tens digit t or the ones digit o is not zero; none when h is 0. */
  function HundredsWords(h: nat, t: nat, o: nat): (words: seq<string>)
    requires h < 10 && t < 10 && o < 10
  {
    if h == 0 then []
    else [ONES_MAP[DigitChar(h)], "HUNDRED"] + (if t == 0 && o == 0 then [] else ["AND"])
  }

  /** The word of the tens digit t and ones digit o: TEENS[o] when t is 1,
      "TENS[t]-ONES[o]" when t is 2 or more (so "TWENTY-ZERO" for 20), ONES[o]
      when only o is not zero; none when both are zero. */
  function TensOnesWords(t: nat, o: nat): (words: seq<string>)
    requires t < 10 && o < 10
  {
    if t == 1 then [TEENS_MAP[DigitChar(o)]]
    else if t >= 2 then [TENS_MAP[DigitChar(t)] + "-" + ONES_MAP[DigitChar(o)]]
    else if o != 0 then [ONES_MAP[DigitChar(o)]]
    else []
  }

  /** The words for a whole number below 1000, read off its hundreds, tens and
      ones decimal digits, and "ZERO" when those yield no word at all. */
  function NumberWords(n: nat): (words: seq<string>)
    requires n < 1000
  {
    var h, t, o := n / 100, n / 10 % 10, n % 10;
    var parts := HundredsWords(h, t, o) + TensOnesWords(t, o);
    if |parts| == 0 then ["ZERO"] else parts
  }

  /** Whether the string has a character at index column. */
  predicate ColumnExists(integer: string, column: nat)
  {
    column < |integer|
  }

  /** Whether the string has a character at index column and it is not '0'. */
  predicate IsSignificantDigit(integer: string, column: nat)
  {
    ColumnExists(integer, column) && integer[column] != '0'
  }

  /** In the reversed digit string of a number, column k is significant exactly
      when the decimal digit of weight 10^k of that number is not zero, columns
      past the end of the string included; and a column that exists holds that
      digit. */
  lemma SignificantColumnIsNonZeroDigit(integer: seq<Digit>, column: nat)
    ensures IsSignificantDigit(Reversed(integer), column)
        <==> DecimalDigitAt(DigitsValue(integer), column) != 0
    ensures ColumnExists(Reversed(integer), column)
        ==> Reversed(integer)[column] == DigitChar(DecimalDigitAt(DigitsValue(integer), column))
  {
    ColumnIsDecimalDigit(integer, column);
  }

  /** The three columns of the reversed digit string of a number below 1000:
      each is significant exactly when the matching decimal digit is not zero,
      and then holds that digit; the ones column exists when the tens column does. */
  lemma ReversedColumns(integer: seq<Digit>)
    requires |integer| <= MAX_SUPPORTED_DIGITS
    ensures DigitsValue(integer) < 1000
    ensures var r, n := Reversed(integer), DigitsValue(integer);
      && (IsSignificantDigit(r, HUNDREDS_COLUMN) <==> n / 100 != 0)
      && (IsSignificantDigit(r, TENS_COLUMN) <==> n / 10 % 10 != 0)
      && (IsSignificantDigit(r, ONES_COLUMN) <==> n % 10 != 0)
      && (ColumnExists(r, HUNDREDS_COLUMN) ==> r[HUNDREDS_COLUMN] == DigitChar(n / 100))
      && (ColumnExists(r, TENS_COLUMN) ==> r[TENS_COLUMN] == DigitChar(n / 10 % 10))
      && (ColumnExists(r, ONES_COLUMN) ==> r[ONES_COLUMN] == DigitChar(n % 10))
      && (ColumnExists(r, TENS_COLUMN) ==> ColumnExists(r, ONES_COLUMN))
  {
    ThreeDigitsBound(integer);
    ThreeDecimalDigits(DigitsValue(integer));
    SignificantColumnIsNonZeroDigit(integer, ONES_COLUMN);
    SignificantColumnIsNonZeroDigit(integer, TENS_COLUMN);
    SignificantColumnIsNonZeroDigit(integer, HUNDREDS_COLUMN);
  }

  /** The tens-and-ones words as the character of the tens digit selects them. */
  lemma TensOnesByDigitChars(t: nat, o: nat)
    requires t < 10 && o < 10
    ensures t != 0 && DigitChar(t) == '1' ==> TensOnesWords(t, o) == [TEENS_MAP[DigitChar(o)]]
    ensures t != 0 && DigitChar(t) != '1' ==>
      TensOnesWords(t, o) == [TENS_MAP[DigitChar(t)] + "-" + ONES_MAP[DigitChar(o)]]
    ensures t == 0 && o != 0 ==> TensOnesWords(t, o) == [ONES_MAP[DigitChar(o)]]
    ensures t == 0 && o == 0 ==> TensOnesWords(t, o) == []
  {
  }

  /** Whether no column below the given one is significant, checked from
      column - 1 down to column 0. */
  method IsLastSignificantDigit(reversedInteger: string, column: nat) returns (last: bool)
    ensures last <==> forall k :: 0 <= k < column ==> !IsSignificantDigit(reversedInteger, k)
  {
    for columnToCheck := column downto 0
      invariant forall k :: columnToCheck <= k < column ==> !IsSignificantDigit(reversedInteger, k)
    {
      if IsSignificantDigit(reversedInteger, columnToCheck) {
        return false;
      }
    }
    return true;
  }

  /** Reverses the array in place. */
  method ReverseArray(a: array<char>)
    modifies a
    ensures a[..] == Reversed(old(a[..]))
  {
    var low, high := 0, a.Length;
    while low + 1 < high
      invariant 0 <= low <= high <= a.Length && low + high == a.Length
      invariant forall k :: 0 <= k < low ==> a[k] == old(a[a.Length - 1 - k])
      invariant forall k :: high <= k < a.Length ==> a[k] == old(a[a.Length - 1 - k])
      invariant forall k :: low <= k < high ==> a[k] == old(a[k])
    {
      a[low], a[high - 1] := a[high - 1], a[low];
      low, high := low + 1, high - 1;
    }
    assert forall k :: 0 <= k < a.Length ==> a[..][k] == Reversed(old(a[..]))[k];
  }

  /** The characters of input in reverse order, reversed in a fresh array. */
  method ReverseString(input: string) returns (reversed: string)
    ensures reversed == Reversed(input)
  {
    var inputArray := new char[|input|](i requires 0 <= i < |input| => input[i]);
    assert inputArray[..] == input;
    ReverseArray(inputArray);
    reversed := inputArray[..];
  }

  /** The words of a digit string: its number's words joined with spaces, or
      UnsupportedNumberOfDigits when it has more than three digits. */
  method ConvertStringIntegerToWords(integer: seq<Digit>) returns (r: Result<string>)
    ensures r.Err? <==> |integer| > MAX_SUPPORTED_DIGITS
    ensures r.Err? ==> r.error == UnsupportedNumberOfDigits(UNSUPPORTED_MESSAGE)
    ensures r.Ok? ==> DigitsValue(integer) < 1000 && r.value == JoinWords(NumberWords(DigitsValue(integer)))
  {
    var words: seq<string> := [];
    var digits := |integer|;

    // Reversed, the ones digit is always at index 0, the tens at 1 and so on.
    var reversedInteger := ReverseString(integer);

    if digits > MAX_SUPPORTED_DIGITS {
      return Err(UnsupportedNumberOfDigits(UNSUPPORTED_MESSAGE));
    }

    ghost var n := DigitsValue(integer);
    ghost var h, t, o := n / 100, n / 10 % 10, n % 10;
    ReversedColumns(integer);

    if IsSignificantDigit(reversedInteger, HUNDREDS_COLUMN) {
      var hundredsDigit := reversedInteger[HUNDREDS_COLUMN];
      assert hundredsDigit == DigitChar(h);
      TablesCoverDigits(hundredsDigit);
      words := words + [ONES_MAP[hundredsDigit]];
      words := words + ["HUNDRED"];
      var isLast := IsLastSignificantDigit(reversedInteger, HUNDREDS_COLUMN);
      assert isLast <==> !IsSignificantDigit(reversedInteger, TENS_COLUMN)
                         && !IsSignificantDigit(reversedInteger, ONES_COLUMN);
      if !isLast {
        words := words + ["AND"];
      }
    }
    assert words == HundredsWords(h, t, o);
    ghost var hundredsWords := words;
    TensOnesByDigitChars(t, o);

    if IsSignificantDigit(reversedInteger, TENS_COLUMN) {
      var tensDigit := reversedInteger[TENS_COLUMN];
      var onesDigit := reversedInteger[ONES_COLUMN];
      assert tensDigit == DigitChar(t) && onesDigit == DigitChar(o);
      TablesCoverDigits(tensDigit);
      TablesCoverDigits(onesDigit);
      if tensDigit == '1' {
        words := words + [TEENS_MAP[onesDigit]];
      } else {
        words := words + [TENS_MAP[tensDigit] + "-" + ONES_MAP[onesDigit]];
      }
      assert words == hundredsWords + TensOnesWords(t, o);
    } else if IsSignificantDigit(reversedInteger, ONES_COLUMN) {
      var onesDigit := reversedInteger[ONES_COLUMN];
      assert onesDigit == DigitChar(o);
      TablesCoverDigits(onesDigit);
      words := words + [ONES_MAP[onesDigit]];
      assert words == hundredsWords + TensOnesWords(t, o);
    } else {
      assert words == hundredsWords + TensOnesWords(t, o);
    }

    if |words| == 0 {
      words := words + ["ZERO"];
    }

    assert words == NumberWords(n);
    var integerInWords := JoinWords(words);
    return Ok(integerInWords);
  }

  /** The whole-dollar digits and the cent digits of a magnitude. */
  datatype Parts = Parts(integerPart: seq<Digit>, fractionalPart: seq<Digit>)

  /** The magnitude printed with exactly two decimal places and cut at the
      point: the whole part without leading zeros ("0" when below one dollar)
      and exactly two cent digits, which together give back the magnitude. */
  function SplitIntegerAndFractionalAsString(cents: nat): (parts: Parts)
    ensures |parts.fractionalPart| == 2
    ensures 100 * DigitsValue(parts.integerPart) + DigitsValue(parts.fractionalPart) == cents
    ensures |parts.integerPart| >= 1 && (|parts.integerPart| == 1 || parts.integerPart[0] != '0')
  {
    Parts(NatToDigits(cents / 100), TwoDigits(cents % 100))
  }

  /** What a conversion yields: UnsupportedNumberOfDigits when the whole part
      reaches 1000, and otherwise "NEGATIVE " for an amount below zero, the
      words of the whole part, " DOLLARS AND ", the words of the cents and
      " CENTS". */
  function AmountInWords(number: Amount): (r: Result<string>)
  {
    var whole, fraction := number.cents / 100, number.cents % 100;
    if whole >= 1000 then Err(UnsupportedNumberOfDigits(UNSUPPORTED_MESSAGE))
    else
      Ok((if number.IsBelowZero() then "NEGATIVE " else "")
         + JoinWords(NumberWords(whole)) + " DOLLARS AND "
         + JoinWords(NumberWords(fraction)) + " CENTS")
  }

  /** Converts an amount into words, building the text piece by piece. */
  method ConvertNumberToWords(number: Amount) returns (r: Result<string>)
    ensures r == AmountInWords(number)
  {
    var numberInWords := "";

    if number.IsBelowZero() {
      numberInWords := numberInWords + "NEGATIVE ";
    }
    assert numberInWords == if number.IsBelowZero() then "NEGATIVE " else "";

    // The magnitude in cents is the absolute value of the amount.
    var integerAndFractionalParts := SplitIntegerAndFractionalAsString(number.cents);
    var integerPart := integerAndFractionalParts.integerPart;
    var fractionalPart := integerAndFractionalParts.fractionalPart;
    ghost var whole, fraction := number.cents / 100, number.cents % 100;
    assert DigitsValue(integerPart) == whole && DigitsValue(fractionalPart) == fraction;
    NatToDigitsLength(whole);

    var integerWords := ConvertStringIntegerToWords(integerPart);
    if integerWords.Err? {
      return Err(integerWords.error);
    }
    numberInWords := numberInWords + integerWords.value;
    numberInWords := numberInWords + " DOLLARS AND ";
    assert whole < 1000 && integerWords.value == JoinWords(NumberWords(whole));
    var fractionalWords := ConvertStringIntegerToWords(fractionalPart);
    assert fractionalWords.value == JoinWords(NumberWords(fraction));
    numberInWords := numberInWords + fractionalWords.value;
    numberInWords := numberInWords + " CENTS";

    return Ok(numberInWords);
  }
}
