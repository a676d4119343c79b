/** The cases of the formatter's unit tests, and the hyphenated "-ZERO"
    words the formatter produces for a tens digit of 2 or more. Each amount
    is stated by its words; its text is those words joined with single
    spaces (NumberFormatterProperties.AmountTextJoinsTokens). */
module NumberFormatterExamples {
  import opened DecimalDigits
  import opened Words
  import opened NumberFormatter
  import opened NumberFormatterProperties

  lemma OnesEntries()
    ensures ONES_MAP[DigitChar(0)] == "ZERO" && ONES_MAP[DigitChar(1)] == "ONE"
    ensures ONES_MAP[DigitChar(2)] == "TWO" && ONES_MAP[DigitChar(3)] == "THREE"
    ensures ONES_MAP[DigitChar(5)] == "FIVE" && ONES_MAP[DigitChar(7)] == "SEVEN"
    ensures ONES_MAP[DigitChar(9)] == "NINE"
  {
    assert DigitChar(0) == '0' && DigitChar(1) == '1' && DigitChar(2) == '2' && DigitChar(3) == '3';
    assert DigitChar(5) == '5' && DigitChar(7) == '7' && DigitChar(9) == '9';
  }

  lemma TensEntries()
    ensures TENS_MAP[DigitChar(2)] == "TWENTY" && TENS_MAP[DigitChar(3)] == "THIRTY"
    ensures TENS_MAP[DigitChar(4)] == "FORTY" && TENS_MAP[DigitChar(5)] == "FIFTY"
    ensures TENS_MAP[DigitChar(9)] == "NINETY"
  {
    assert DigitChar(2) == '2' && DigitChar(3) == '3' && DigitChar(4) == '4';
    assert DigitChar(5) == '5' && DigitChar(9) == '9';
  }

  /** A number from 1 to 9 is its ONES word. */
  lemma OnesWord(n: nat, ones: string)
    requires 1 <= n < 10 && ONES_MAP[DigitChar(n)] == ones
    ensures NumberWords(n) == [ones]
  {
    HundredsTensOnes(n);
  }

  /** A number from 20 to 99 is the one word "TENS-ONES". */
  lemma CompoundWord(n: nat, tens: string, ones: string, word: string)
    requires 20 <= n < 100
    requires TENS_MAP[DigitChar(n / 10)] == tens && ONES_MAP[DigitChar(n % 10)] == ones
    requires tens + "-" + ones == word
    ensures NumberWords(n) == [word]
  {
    HundredsTensOnes(n);
  }

  /** The words of a converted amount below zero and not below zero. */
  lemma AmountWords(number: Amount, whole: seq<string>, fraction: seq<string>)
    requires number.cents < 100000
    requires NumberWords(number.cents / 100) == whole && NumberWords(number.cents % 100) == fraction
    ensures number.IsBelowZero() ==>
      AmountTokens(number) == ["NEGATIVE"] + whole + ["DOLLARS", "AND"] + fraction + ["CENTS"]
    ensures !number.IsBelowZero() ==>
      AmountTokens(number) == whole + ["DOLLARS", "AND"] + fraction + ["CENTS"]
  {
  }

  /** The text of an amount not below zero, from the joined words of its two parts. */
  lemma UnsignedText(number: Amount, w: string, f: string)
    requires !number.IsBelowZero() && number.cents < 100000
    requires JoinWords(NumberWords(number.cents / 100)) == w
    requires JoinWords(NumberWords(number.cents % 100)) == f
    ensures AmountInWords(number) == Ok(w + " DOLLARS AND " + f + " CENTS")
  {
    assert "" + w == w;
  }

  lemma Words123()
    ensures NumberWords(123) == ["ONE", "HUNDRED", "AND", "TWENTY-THREE"]
  {
    OnesEntries();
    TensEntries();
    CompoundWord(23, "TWENTY", "THREE", "TWENTY-THREE");
    HundredsThenRest(123);
    assert 123 / 100 == 1 && 123 % 100 == 23;
  }

  lemma Words45()
    ensures NumberWords(45) == ["FORTY-FIVE"]
  {
    OnesEntries();
    TensEntries();
    CompoundWord(45, "FORTY", "FIVE", "FORTY-FIVE");
  }

  lemma Words100()
    ensures NumberWords(100) == ["ONE", "HUNDRED"]
  {
    OnesEntries();
    HundredsThenRest(100);
    assert 100 / 100 == 1 && 100 % 100 == 0;
  }

  lemma Words32()
    ensures NumberWords(32) == ["THIRTY-TWO"]
  {
    OnesEntries();
    TensEntries();
    CompoundWord(32, "THIRTY", "TWO", "THIRTY-TWO");
  }

  lemma Words57()
    ensures NumberWords(57) == ["FIFTY-SEVEN"]
  {
    OnesEntries();
    TensEntries();
    CompoundWord(57, "FIFTY", "SEVEN", "FIFTY-SEVEN");
  }

  lemma Words0()
    ensures NumberWords(0) == ["ZERO"]
  {
    ZeroWordsIffZero(0);
  }

  lemma Words101()
    ensures NumberWords(101) == ["ONE", "HUNDRED", "AND", "ONE"]
  {
    OnesEntries();
    OnesWord(1, "ONE");
    HundredsThenRest(101);
    assert 101 / 100 == 1 && 101 % 100 == 1;
  }

  lemma Words99()
    ensures NumberWords(99) == ["NINETY-NINE"]
  {
    OnesEntries();
    TensEntries();
    CompoundWord(99, "NINETY", "NINE", "NINETY-NINE");
  }

  lemma Words120()
    ensures NumberWords(120) == ["ONE", "HUNDRED", "AND", "TWENTY-ZERO"]
  {
    Words20();
    OnesEntries();
    HundredsThenRest(120);
    assert 120 / 100 == 1 && 120 % 100 == 20;
  }

  lemma Words20()
    ensures NumberWords(20) == ["TWENTY-ZERO"]
  {
    OnesEntries();
    TensEntries();
    CompoundWord(20, "TWENTY", "ZERO", "TWENTY-ZERO");
  }

  /** 123.45 */
  lemma Example12345()
    ensures var words := ["ONE", "HUNDRED", "AND", "TWENTY-THREE"] + ["DOLLARS", "AND"] + ["FORTY-FIVE"] + ["CENTS"];
      AmountTokens(Amount(false, 12345)) == words && AmountInWords(Amount(false, 12345)) == Ok(JoinWords(words))
    ensures AmountInWords(Amount(false, 12345)) == Ok("ONE HUNDRED AND TWENTY-THREE DOLLARS AND FORTY-FIVE CENTS")
  {
    Words123();
    Words45();
    AmountWords(Amount(false, 12345), NumberWords(123), NumberWords(45));
    AmountTextJoinsTokens(Amount(false, 12345));
    Joined123();
    Spelled12345();
    UnsignedText(Amount(false, 12345), "ONE HUNDRED AND TWENTY-THREE", "FORTY-FIVE");
  }

  /** 100.32 */
  lemma Example10032()
    ensures var words := ["ONE", "HUNDRED"] + ["DOLLARS", "AND"] + ["THIRTY-TWO"] + ["CENTS"];
      AmountTokens(Amount(false, 10032)) == words && AmountInWords(Amount(false, 10032)) == Ok(JoinWords(words))
    ensures AmountInWords(Amount(false, 10032)) == Ok("ONE HUNDRED DOLLARS AND THIRTY-TWO CENTS")
  {
    Words100();
    Words32();
    AmountWords(Amount(false, 10032), NumberWords(100), NumberWords(32));
    AmountTextJoinsTokens(Amount(false, 10032));
    Joined100();
    Spelled10032();
    UnsignedText(Amount(false, 10032), "ONE HUNDRED", "THIRTY-TWO");
  }

  /** 57 */
  lemma Example5700()
    ensures var words := ["FIFTY-SEVEN"] + ["DOLLARS", "AND"] + ["ZERO"] + ["CENTS"];
      AmountTokens(Amount(false, 5700)) == words && AmountInWords(Amount(false, 5700)) == Ok(JoinWords(words))
    ensures AmountInWords(Amount(false, 5700)) == Ok("FIFTY-SEVEN DOLLARS AND ZERO CENTS")
  {
    Words57();
    Words0();
    AmountWords(Amount(false, 5700), NumberWords(57), NumberWords(0));
    AmountTextJoinsTokens(Amount(false, 5700));
    Spelled5700();
    UnsignedText(Amount(false, 5700), "FIFTY-SEVEN", "ZERO");
  }

  /** 0 */
  lemma Example0()
    ensures var words := ["ZERO"] + ["DOLLARS", "AND"] + ["ZERO"] + ["CENTS"];
      AmountTokens(Amount(false, 0)) == words && AmountInWords(Amount(false, 0)) == Ok(JoinWords(words))
    ensures AmountInWords(Amount(false, 0)) == Ok("ZERO DOLLARS AND ZERO CENTS")
  {
    Words0();
    AmountWords(Amount(false, 0), NumberWords(0), NumberWords(0));
    AmountTextJoinsTokens(Amount(false, 0));
    Spelled0();
    UnsignedText(Amount(false, 0), "ZERO", "ZERO");
  }

  /** 101.99 */
  lemma Example10199()
    ensures var words := ["ONE", "HUNDRED", "AND", "ONE"] + ["DOLLARS", "AND"] + ["NINETY-NINE"] + ["CENTS"];
      AmountTokens(Amount(false, 10199)) == words && AmountInWords(Amount(false, 10199)) == Ok(JoinWords(words))
    ensures AmountInWords(Amount(false, 10199)) == Ok("ONE HUNDRED AND ONE DOLLARS AND NINETY-NINE CENTS")
  {
    Words101();
    Words99();
    AmountWords(Amount(false, 10199), NumberWords(101), NumberWords(99));
    AmountTextJoinsTokens(Amount(false, 10199));
    Joined101();
    Spelled10199();
    UnsignedText(Amount(false, 10199), "ONE HUNDRED AND ONE", "NINETY-NINE");
  }

  /** -120.20 */
  lemma ExampleTwentyZero()
    ensures var words := ["NEGATIVE"] + ["ONE", "HUNDRED", "AND", "TWENTY-ZERO"] + ["DOLLARS", "AND"] + ["TWENTY-ZERO"] + ["CENTS"];
      AmountTokens(Amount(true, 12020)) == words && AmountInWords(Amount(true, 12020)) == Ok(JoinWords(words))
  {
    Words120();
    Words20();
    AmountWords(Amount(true, 12020), NumberWords(120), NumberWords(20));
    AmountTextJoinsTokens(Amount(true, 12020));
  }

  /** 123456789.456, taken at the cent as 123456789.46, has nine whole digits and fails. */
  lemma Example12345678946()
    ensures AmountInWords(Amount(false, 12345678946)) == Err(UnsupportedNumberOfDigits(UNSUPPORTED_MESSAGE))
  {
  }

  /** Two and four words joined with spaces. */
  lemma JoinTwo(a: string, b: string)
    ensures JoinWords([a, b]) == a + " " + b
  {
    assert [a, b][1..] == [b];
  }

  lemma JoinFour(a: string, b: string, c: string, d: string)
    ensures JoinWords([a, b, c, d]) == a + " " + b + " " + c + " " + d
  {
    var w := [a, b, c, d];
    assert w[1..] == [b, c, d] && w[1..][1..] == [c, d] && w[1..][1..][1..] == [d];
    assert JoinWords([c, d]) == c + " " + d;
    assert JoinWords([b, c, d]) == b + " " + (c + " " + d);
    assert a + " " + (b + " " + (c + " " + d)) == a + " " + b + " " + c + " " + d;
  }

  lemma Joined123()
    ensures JoinWords(["ONE", "HUNDRED", "AND", "TWENTY-THREE"]) == "ONE HUNDRED AND TWENTY-THREE"
  {
    JoinFour("ONE", "HUNDRED", "AND", "TWENTY-THREE");
    assert "ONE" + " " + "HUNDRED" + " " + "AND" + " " + "TWENTY-THREE" == "ONE HUNDRED AND TWENTY-THREE";
  }

  lemma Spelled12345()
    ensures "ONE HUNDRED AND TWENTY-THREE" + " DOLLARS AND " + "FORTY-FIVE" + " CENTS" == "ONE HUNDRED AND TWENTY-THREE DOLLARS AND FORTY-FIVE CENTS"
  {
  }

  lemma Joined100()
    ensures JoinWords(["ONE", "HUNDRED"]) == "ONE HUNDRED"
  {
    JoinTwo("ONE", "HUNDRED");
  }

  lemma Spelled10032()
    ensures "ONE HUNDRED" + " DOLLARS AND " + "THIRTY-TWO" + " CENTS" == "ONE HUNDRED DOLLARS AND THIRTY-TWO CENTS"
  {
  }

  lemma Spelled5700()
    ensures "FIFTY-SEVEN" + " DOLLARS AND " + "ZERO" + " CENTS" == "FIFTY-SEVEN DOLLARS AND ZERO CENTS"
  {
  }

  lemma Spelled0()
    ensures "ZERO" + " DOLLARS AND " + "ZERO" + " CENTS" == "ZERO DOLLARS AND ZERO CENTS"
  {
  }

  lemma Joined101()
    ensures JoinWords(["ONE", "HUNDRED", "AND", "ONE"]) == "ONE HUNDRED AND ONE"
  {
    JoinFour("ONE", "HUNDRED", "AND", "ONE");
    assert "ONE" + " " + "HUNDRED" + " " + "AND" + " " + "ONE" == "ONE HUNDRED AND ONE";
  }

  lemma Spelled10199()
    ensures "ONE HUNDRED AND ONE" + " DOLLARS AND " + "NINETY-NINE" + " CENTS" == "ONE HUNDRED AND ONE DOLLARS AND NINETY-NINE CENTS"
  {
  }
}
