/** What the words produced by the formatter say about the amount: the rules
    for hundreds, "AND", teens, tens and ones, the "ZERO" fallback, the token
    structure of the whole text, the sign prefix and the digit limit. */
module NumberFormatterProperties {
  import opened DecimalDigits
  import opened Words
  import opened NumberFormatter

  /** The words are "ZERO" exactly when the number is zero. */
  lemma ZeroWordsIffZero(n: nat)
    requires n < 1000
    ensures NumberWords(n) == ["ZERO"] <==> n == 0
  {
    HundredsTensOnes(n);
    var h, t, o := n / 100, n / 10 % 10, n % 10;
    TableWordShapes(DigitChar(o));
    TableWordShapes(DigitChar(t));
    var words := HundredsWords(h, t, o) + TensOnesWords(t, o);
    if n != 0 {
      if h != 0 {
        assert |words| >= 2;
      } else if t >= 2 {
        assert |words[0]| >= 9;
      } else {
        assert words == TensOnesWords(t, o);
      }
      assert words != ["ZERO"];
    }
  }

  /** A digit string of at most three digits words to "ZERO" exactly when it has
      no digit other than '0' (a missing column counts as '0'). */
  lemma ZeroWordsIffAllZeroDigits(s: seq<Digit>)
    requires |s| <= MAX_SUPPORTED_DIGITS
    ensures DigitsValue(s) < 1000
    ensures NumberWords(DigitsValue(s)) == ["ZERO"] <==> forall i :: 0 <= i < |s| ==> s[i] == '0'
  {
    ThreeDigitsBound(s);
    ZeroValueIffAllZeroDigits(s);
    ZeroWordsIffZero(DigitsValue(s));
  }

  /** From 100 up, the words are those of the hundreds digit followed, when
      the last two digits are not both zero, by "AND" and the words of the
      number those two digits form. */
  lemma HundredsThenRest(n: nat)
    requires 100 <= n < 1000
    ensures n % 100 == 0 ==> NumberWords(n) == [ONES_MAP[DigitChar(n / 100)], "HUNDRED"]
    ensures n % 100 != 0 ==>
      NumberWords(n) == [ONES_MAP[DigitChar(n / 100)], "HUNDRED", "AND"] + NumberWords(n % 100)
  {
    var h, t, o, r := n / 100, n / 10 % 10, n % 10, n % 100;
    HundredsTensOnes(n);
    var rest := TensOnesWords(t, o);
    assert HundredsWords(0, t, o) + rest == rest;
    if r == 0 {
      assert rest == [];
      assert HundredsWords(h, t, o) == [ONES_MAP[DigitChar(h)], "HUNDRED"];
    } else {
      assert |rest| == 1;
      assert NumberWords(r) == rest;
      assert HundredsWords(h, t, o) == [ONES_MAP[DigitChar(h)], "HUNDRED", "AND"];
    }
  }

  /** The hundreds: a number of 100 or more opens with "<ONES[h]> HUNDRED",
      followed by "AND" exactly when its tens or ones digit is not zero; a
      number below 100 says neither "HUNDRED" nor "AND". */
  lemma HundredsRule(n: nat)
    requires n < 1000
    ensures n >= 100 ==>
      var words := NumberWords(n);
      && |words| >= 2
      && words[0] == ONES_MAP[DigitChar(n / 100)] && words[1] == "HUNDRED"
      && (|words| >= 3 && words[2] == "AND" <==> n % 100 != 0)
    ensures n < 100 ==> "HUNDRED" !in NumberWords(n) && "AND" !in NumberWords(n)
  {
    HundredsTensOnes(n);
    var h, t, o := n / 100, n / 10 % 10, n % 10;
    TableWordShapes(DigitChar(o));
    TableWordShapes(DigitChar(t));
    if n >= 100 {
      if t == 0 && o == 0 {
        assert TensOnesWords(t, o) == [];
      }
    } else {
      assert h == 0;
      if t >= 2 {
        assert |NumberWords(n)[0]| >= 9;
      }
    }
  }

  /** The tens and ones: the last word is TEENS[o] for a tens digit of 1, the
      hyphenated "TENS[t]-ONES[o]" for a tens digit of 2 or more (ones digit 0
      included), ONES[o] for a tens digit of 0 and a non-zero ones digit; with
      both zero there is no such word, only the hundreds or "ZERO". */
  lemma TensOnesRule(n: nat)
    requires n < 1000
    ensures var words, t, o := NumberWords(n), n / 10 % 10, n % 10;
      && |words| >= 1
      && (t == 1 ==> words[|words| - 1] == TEENS_MAP[DigitChar(o)])
      && (t >= 2 ==> words[|words| - 1] == TENS_MAP[DigitChar(t)] + "-" + ONES_MAP[DigitChar(o)])
      && (t == 0 && o != 0 ==> words[|words| - 1] == ONES_MAP[DigitChar(o)])
      && (t == 0 && o == 0 ==>
            words == if n == 0 then ["ZERO"] else [ONES_MAP[DigitChar(n / 100)], "HUNDRED"])
  {
    HundredsTensOnes(n);
  }

  /** The number of words: one to four, made of the two hundreds words, the
      "AND", the one tens-and-ones word and the "ZERO" fallback where each applies. */
  lemma WordCount(n: nat)
    requires n < 1000
    ensures 1 <= |NumberWords(n)| <= 4
    ensures |NumberWords(n)|
         == (if n >= 100 then 2 else 0)
          + (if n >= 100 && n % 100 != 0 then 1 else 0)
          + (if n % 100 != 0 then 1 else 0)
          + (if n == 0 then 1 else 0)
  {
    HundredsTensOnes(n);
  }

  /** Every word is a single token and none is "NEGATIVE", so the joined text
      splits back into exactly these words. */
  lemma NumberWordsText(n: nat)
    requires n < 1000
    ensures forall i :: 0 <= i < |NumberWords(n)| ==>
      IsToken(NumberWords(n)[i]) && NumberWords(n)[i] != "NEGATIVE"
    ensures SplitOnSpace(JoinWords(NumberWords(n))) == NumberWords(n)
  {
    HundredsTensOnes(n);
    var words := NumberWords(n);
    PartsAreTokens(n / 100, n / 10 % 10, n % 10);
    assert forall i :: 0 <= i < |words| ==> IsToken(words[i]) && words[i] != "NEGATIVE";
    SplitJoin(words);
  }

  /** Every word read off three digits is a single token other than "NEGATIVE". */
  lemma PartsAreTokens(h: nat, t: nat, o: nat)
    requires h < 10 && t < 10 && o < 10
    ensures var words := HundredsWords(h, t, o) + TensOnesWords(t, o);
      forall i :: 0 <= i < |words| ==> IsToken(words[i]) && words[i] != "NEGATIVE"
  {
    OnesWordShape(DigitChar(h));
    OnesWordShape(DigitChar(o));
    if t == 1 {
      TeensWordShape(DigitChar(o));
    } else if t >= 2 {
      TensWordShape(DigitChar(t));
      var compound := TENS_MAP[DigitChar(t)] + "-" + ONES_MAP[DigitChar(o)];
      assert |compound| >= 9;
      assert IsToken(compound);
    }
  }

  /** The whole part prints with more than three digits exactly when the
      magnitude reaches 1000.00; the cents always print with two digits, so
      they never reach the digit limit. */
  lemma DigitLimit(cents: nat)
    ensures |SplitIntegerAndFractionalAsString(cents).integerPart| > MAX_SUPPORTED_DIGITS
        <==> cents >= 100000
    ensures |SplitIntegerAndFractionalAsString(cents).fractionalPart| <= MAX_SUPPORTED_DIGITS
  {
    NatToDigitsLength(cents / 100);
  }

  /** A conversion fails exactly when the whole part of the magnitude prints
      with more than three digits, and then only with UnsupportedNumberOfDigits. */
  lemma FailsIffTooManyDigits(number: Amount)
    ensures AmountInWords(number).Err?
        <==> |SplitIntegerAndFractionalAsString(number.cents).integerPart| > MAX_SUPPORTED_DIGITS
    ensures AmountInWords(number).Err? ==>
      AmountInWords(number).error == UnsupportedNumberOfDigits(UNSUPPORTED_MESSAGE)
  {
    DigitLimit(number.cents);
  }

  /** Only the magnitude is put into words: a negative amount reads as
      "NEGATIVE " followed by the words of its magnitude, and fails exactly when
      its magnitude fails. */
  lemma NegativeIsPrefixed(cents: nat)
    requires cents > 0
    ensures AmountInWords(Amount(true, cents)).Err? <==> AmountInWords(Amount(false, cents)).Err?
    ensures AmountInWords(Amount(true, cents)).Ok? ==>
      AmountInWords(Amount(true, cents)).value == "NEGATIVE " + AmountInWords(Amount(false, cents)).value
  {
    var whole, fraction := cents / 100, cents % 100;
    if whole < 1000 {
      var w, f := JoinWords(NumberWords(whole)), JoinWords(NumberWords(fraction));
      assert "" + w == w;
      assert "NEGATIVE " + w + " DOLLARS AND " + f + " CENTS"
          == "NEGATIVE " + (w + " DOLLARS AND " + f + " CENTS");
    }
  }

  /** A negative sign on a zero magnitude changes nothing. */
  lemma NegativeZeroIsZero()
    ensures AmountInWords(Amount(true, 0)) == AmountInWords(Amount(false, 0))
  {
  }

  /** The tokens of a converted amount: "NEGATIVE" when below zero, the words
      of the whole part, "DOLLARS", "AND", the words of the cents, "CENTS". */
  function AmountTokens(number: Amount): (tokens: seq<string>)
    requires number.cents < 100000
  {
    (if number.IsBelowZero() then ["NEGATIVE"] else [])
    + NumberWords(number.cents / 100) + ["DOLLARS", "AND"]
    + NumberWords(number.cents % 100) + ["CENTS"]
  }

  lemma JoinDollarsAnd(wi: seq<string>)
    requires |wi| >= 1
    ensures JoinWords(wi + ["DOLLARS", "AND"]) == JoinWords(wi) + " DOLLARS AND"
  {
    JoinAppend(wi, ["DOLLARS", "AND"]);
    JoinedDollarsAnd();
    SpaceAssociates(JoinWords(wi), "DOLLARS AND");
  }

  lemma JoinedDollarsAnd()
    ensures JoinWords(["DOLLARS", "AND"]) == "DOLLARS AND"
    ensures " " + "DOLLARS AND" == " DOLLARS AND"
  {
  }

  lemma SpaceAssociates(a: string, b: string)
    ensures a + " " + b == a + (" " + b)
  {
  }

  lemma JoinCents(a: seq<string>, wf: seq<string>)
    requires |a| >= 1 && |wf| >= 1
    ensures JoinWords(a + wf + ["CENTS"]) == JoinWords(a) + " " + JoinWords(wf) + " CENTS"
  {
    JoinAppend(a, wf);
    JoinAppend(a + wf, ["CENTS"]);
  }

  lemma AmountTextRegrouped(sign: string, w: string, f: string)
    ensures sign + w + " DOLLARS AND " + f + " CENTS"
         == sign + ((w + " DOLLARS AND") + " " + f + " CENTS")
  {
    assert " DOLLARS AND" + " " == " DOLLARS AND ";
  }

  /** Every token of an amount is a single token when its words are. */
  lemma AmountTokensAreTokens(sign: seq<string>, wi: seq<string>, wf: seq<string>)
    requires sign == [] || sign == ["NEGATIVE"]
    requires forall i :: 0 <= i < |wi| ==> IsToken(wi[i])
    requires forall i :: 0 <= i < |wf| ==> IsToken(wf[i])
    ensures var tokens := sign + wi + ["DOLLARS", "AND"] + wf + ["CENTS"];
      forall i :: 0 <= i < |tokens| ==> IsToken(tokens[i])
  {
    var tokens := sign + wi + ["DOLLARS", "AND"] + wf + ["CENTS"];
    forall i | 0 <= i < |tokens| ensures IsToken(tokens[i]) {
      if i >= |sign| && i < |sign| + |wi| {
        assert tokens[i] == wi[i - |sign|];
      } else if i >= |sign| + |wi| + 2 && i < |sign| + |wi| + 2 + |wf| {
        assert tokens[i] == wf[i - |sign| - |wi| - 2];
      }
    }
  }

  /** The text assembled from a sign, the whole-part words and the cent words
      is their tokens joined with spaces. */
  lemma JoinAmountText(sign: seq<string>, wi: seq<string>, wf: seq<string>)
    requires sign == [] || sign == ["NEGATIVE"]
    requires |wi| >= 1 && |wf| >= 1
    ensures JoinWords(sign + wi + ["DOLLARS", "AND"] + wf + ["CENTS"])
         == (if sign == [] then "" else "NEGATIVE ")
            + JoinWords(wi) + " DOLLARS AND " + JoinWords(wf) + " CENTS"
  {
    var w, f := JoinWords(wi), JoinWords(wf);
    var signText := if sign == [] then "" else "NEGATIVE ";
    var a := wi + ["DOLLARS", "AND"];
    var body := a + wf + ["CENTS"];
    JoinDollarsAnd(wi);
    JoinCents(a, wf);
    assert JoinWords(body) == (w + " DOLLARS AND") + " " + f + " CENTS";
    AmountTextRegrouped(signText, w, f);
    if sign == [] {
      assert sign + wi + ["DOLLARS", "AND"] + wf + ["CENTS"] == body;
      assert signText + JoinWords(body) == JoinWords(body);
    } else {
      assert sign + wi + ["DOLLARS", "AND"] + wf + ["CENTS"] == ["NEGATIVE"] + body;
      JoinAppend(["NEGATIVE"], body);
      assert JoinWords(["NEGATIVE"] + body) == signText + JoinWords(body);
    }
  }

  /** The text of a converted amount is its tokens joined with spaces. */
  lemma AmountTextJoinsTokens(number: Amount)
    requires AmountInWords(number).Ok?
    ensures number.cents < 100000
    ensures AmountInWords(number) == Ok(JoinWords(AmountTokens(number)))
  {
    var wi, wf := NumberWords(number.cents / 100), NumberWords(number.cents % 100);
    WordCount(number.cents / 100);
    WordCount(number.cents % 100);
    var sign: seq<string> := if number.IsBelowZero() then ["NEGATIVE"] else [];
    JoinAmountText(sign, wi, wf);
  }

  /** The text of a converted amount is its tokens joined with spaces, and
      splits on spaces into exactly those tokens. */
  lemma AmountText(number: Amount)
    requires AmountInWords(number).Ok?
    ensures number.cents < 100000
    ensures JoinWords(AmountTokens(number)) == AmountInWords(number).value
    ensures SplitOnSpace(AmountInWords(number).value) == AmountTokens(number)
  {
    AmountTextJoinsTokens(number);
    var wi, wf := NumberWords(number.cents / 100), NumberWords(number.cents % 100);
    NumberWordsText(number.cents / 100);
    NumberWordsText(number.cents % 100);
    var sign: seq<string> := if number.IsBelowZero() then ["NEGATIVE"] else [];
    AmountTokensAreTokens(sign, wi, wf);
    SplitJoin(AmountTokens(number));
  }

  /** A text whose first token is not "NEGATIVE" does not open with "NEGATIVE ". */
  lemma NotNegativePrefix(text: string, tokens: seq<string>)
    requires SplitOnSpace(text) == tokens && tokens[0] != "NEGATIVE"
    ensures !(|text| >= 9 && text[..9] == "NEGATIVE ")
  {
    if |text| >= 9 && text[..9] == "NEGATIVE " {
      FirstPiece(text, "NEGATIVE");
    }
  }

  lemma BelowZeroText(number: Amount)
    requires AmountInWords(number).Ok? && number.IsBelowZero()
    ensures var text := AmountInWords(number).value;
      |text| >= 9 && text[..9] == "NEGATIVE "
  {
    var w, f := JoinWords(NumberWords(number.cents / 100)), JoinWords(NumberWords(number.cents % 100));
    PrefixRegrouped("NEGATIVE ", w, f);
  }

  lemma PrefixRegrouped(sign: string, w: string, f: string)
    ensures var text := sign + w + " DOLLARS AND " + f + " CENTS";
      |text| >= |sign| && text[..|sign|] == sign
  {
    assert sign + w + " DOLLARS AND " + f + " CENTS" == sign + (w + " DOLLARS AND " + f + " CENTS");
  }

  lemma NotBelowZeroText(number: Amount)
    requires AmountInWords(number).Ok? && !number.IsBelowZero()
    ensures var text := AmountInWords(number).value;
      !(|text| >= 9 && text[..9] == "NEGATIVE ")
  {
    AmountText(number);
    NumberWordsText(number.cents / 100);
    var tokens := AmountTokens(number);
    assert tokens[0] == NumberWords(number.cents / 100)[0];
    NotNegativePrefix(AmountInWords(number).value, tokens);
  }

  /** The text opens with "NEGATIVE " exactly when the amount is below zero. */
  lemma NegativeIffBelowZero(number: Amount)
    requires AmountInWords(number).Ok?
    ensures var text := AmountInWords(number).value;
      |text| >= 9 && text[..9] == "NEGATIVE " <==> number.IsBelowZero()
  {
    if number.IsBelowZero() {
      BelowZeroText(number);
    } else {
      NotBelowZeroText(number);
    }
  }

  /** The largest supported magnitude, 999.99, is worded; one cent more fails. */
  lemma DigitLimitBoundary(negative: bool)
    ensures AmountInWords(Amount(negative, 99999)).Ok?
    ensures AmountInWords(Amount(negative, 100000)) == Err(UnsupportedNumberOfDigits(UNSUPPORTED_MESSAGE))
  {
  }
}
