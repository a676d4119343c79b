/** The words determine the number: no two numbers below 1000 share their
    words, and no two amounts below 1000.00 share their text, apart from the
    sign of a zero amount. */
module NumberFormatterInjectivity {
  import opened DecimalDigits
  import opened Words
  import opened NumberFormatter
  import opened NumberFormatterProperties

  lemma HyphenAfter(x: string, u: string)
    ensures (x + "-" + u)[|x|] == '-'
  {
  }

  lemma CharOfPrefix(x: string, u: string, i: int)
    ensures 0 <= i < |x| ==> (x + u)[i] == x[i]
  {
  }

  /** Two strings cut at their first hyphen agree on both sides. */
  lemma SplitAtHyphen(x: string, u: string, y: string, v: string)
    requires '-' !in x && '-' !in y
    requires x + "-" + u == y + "-" + v
    ensures x == y && u == v
  {
    var s := x + "-" + u;
    if |x| < |y| {
      HyphenAfter(x, u);
      CharOfPrefix(y, "-" + v, |x|);
      assert false;
    } else if |y| < |x| {
      HyphenAfter(y, v);
      CharOfPrefix(x, "-" + u, |y|);
      assert false;
    }
    assert x == s[..|x|] && y == s[..|y|];
    assert u == s[|x| + 1..] && v == s[|y| + 1..];
  }

  /** A hyphenated tens-ones word determines both of its digits. */
  lemma HyphenatedInjective(a: Digit, b: Digit, c: Digit, d: Digit)
    requires a >= '2' && c >= '2'
    requires TENS_MAP[a] + "-" + ONES_MAP[b] == TENS_MAP[c] + "-" + ONES_MAP[d]
    ensures a == c && b == d
  {
    TableWordShapes(a);
    TableWordShapes(c);
    SplitAtHyphen(TENS_MAP[a], ONES_MAP[b], TENS_MAP[c], ONES_MAP[d]);
    TablesInjective(a, c);
    TablesInjective(b, d);
  }

  lemma DigitCharInjective(a: nat, b: nat)
    requires a < 10 && b < 10 && DigitChar(a) == DigitChar(b)
    ensures a == b
  {
    assert DigitValue(DigitChar(a)) == a;
  }

  /** The tens-and-ones word, or its absence, determines the tens and ones digits. */
  lemma TensOnesInjective(t1: nat, o1: nat, t2: nat, o2: nat)
    requires t1 < 10 && o1 < 10 && t2 < 10 && o2 < 10
    requires TensOnesWords(t1, o1) == TensOnesWords(t2, o2)
    ensures t1 == t2 && o1 == o2
  {
    var a, b, c, d := DigitChar(t1), DigitChar(o1), DigitChar(t2), DigitChar(o2);
    TableWordShapes(a);
    TableWordShapes(b);
    TableWordShapes(c);
    TableWordShapes(d);
    TablesInjective(b, d);
    TablesInjective(d, b);
    if t1 >= 2 && t2 >= 2 {
      HyphenatedInjective(a, b, c, d);
      DigitCharInjective(t1, t2);
    }
    DigitCharInjective(o1, o2);
  }

  /** How many words each part contributes. */
  lemma PartLengths(h: nat, t: nat, o: nat)
    requires h < 10 && t < 10 && o < 10
    ensures |HundredsWords(h, t, o)| == if h == 0 then 0 else if t == 0 && o == 0 then 2 else 3
    ensures |TensOnesWords(t, o)| == if t == 0 && o == 0 then 0 else 1
  {
  }

  lemma SplitEqual(a: seq<string>, b: seq<string>, c: seq<string>, d: seq<string>)
    requires a + b == c + d && |a| == |c|
    ensures a == c && b == d
  {
    assert a == (a + b)[..|a|] && c == (c + d)[..|c|];
    assert b == (a + b)[|a|..] && d == (c + d)[|c|..];
  }

  /** The hundreds, tens and ones digits are determined by the words they yield. */
  lemma PartsInjective(h1: nat, t1: nat, o1: nat, h2: nat, t2: nat, o2: nat)
    requires h1 < 10 && t1 < 10 && o1 < 10 && h2 < 10 && t2 < 10 && o2 < 10
    requires HundredsWords(h1, t1, o1) + TensOnesWords(t1, o1) == HundredsWords(h2, t2, o2) + TensOnesWords(t2, o2)
    ensures h1 == h2 && t1 == t2 && o1 == o2
  {
    PartLengths(h1, t1, o1);
    PartLengths(h2, t2, o2);
    SplitEqual(HundredsWords(h1, t1, o1), TensOnesWords(t1, o1), HundredsWords(h2, t2, o2), TensOnesWords(t2, o2));
    TensOnesInjective(t1, o1, t2, o2);
    if h1 != 0 && h2 != 0 {
      assert ONES_MAP[DigitChar(h1)] == HundredsWords(h1, t1, o1)[0];
      TablesInjective(DigitChar(h1), DigitChar(h2));
      DigitCharInjective(h1, h2);
    }
  }

  /** The words determine the number: two numbers below 1000 with the same
      words are the same number. */
  lemma NumberWordsInjective(m: nat, n: nat)
    requires m < 1000 && n < 1000
    requires NumberWords(m) == NumberWords(n)
    ensures m == n
  {
    ZeroWordsIffZero(m);
    ZeroWordsIffZero(n);
    HundredsTensOnes(m);
    HundredsTensOnes(n);
    if m != 0 && n != 0 {
      PartsInjective(m / 100, m / 10 % 10, m % 10, n / 100, n / 10 % 10, n % 10);
    }
  }

  /** "DOLLARS" is never one of the words of a number. */
  lemma NoDollarsWord(n: nat)
    requires n < 1000
    ensures "DOLLARS" !in NumberWords(n)
  {
    HundredsTensOnes(n);
    NoDollarsInParts(n / 100, n / 10 % 10, n % 10);
  }

  lemma NoDollarsInParts(h: nat, t: nat, o: nat)
    requires h < 10 && t < 10 && o < 10
    ensures "DOLLARS" !in HundredsWords(h, t, o) && "DOLLARS" !in TensOnesWords(t, o)
  {
    OnesWordShape(DigitChar(h));
    OnesWordShape(DigitChar(o));
    if t == 1 {
      TeensWordShape(DigitChar(o));
    } else if t >= 2 {
      HyphenAfter(TENS_MAP[DigitChar(t)], ONES_MAP[DigitChar(o)]);
    }
  }

  lemma MarkerAt(w: seq<string>, x: seq<string>, marker: string, i: int)
    ensures (w + [marker] + x)[|w|] == marker
    ensures 0 <= i < |w| ==> (w + [marker] + x)[i] == w[i]
  {
  }

  /** Two lists that both read "w, marker, x" with the marker absent from w
      split at the same place. */
  lemma SplitAtMarker(w1: seq<string>, x1: seq<string>, w2: seq<string>, x2: seq<string>, marker: string)
    requires marker !in w1 && marker !in w2
    requires w1 + [marker] + x1 == w2 + [marker] + x2
    ensures w1 == w2 && x1 == x2
  {
    var s := w1 + [marker] + x1;
    if |w1| < |w2| {
      MarkerAt(w1, x1, marker, |w1|);
      MarkerAt(w2, x2, marker, |w1|);
      assert false;
    } else if |w2| < |w1| {
      MarkerAt(w2, x2, marker, |w2|);
      MarkerAt(w1, x1, marker, |w2|);
      assert false;
    }
    assert w1 == s[..|w1|] && w2 == s[..|w2|];
    assert x1 == s[|w1| + 1..] && x2 == s[|w2| + 1..];
  }

  lemma TokensRegrouped(sign: seq<string>, wi: seq<string>, wf: seq<string>)
    ensures sign + wi + ["DOLLARS", "AND"] + wf + ["CENTS"]
         == sign + (wi + ["DOLLARS"] + (["AND"] + wf + ["CENTS"]))
  {
  }

  lemma StripEnds(a: seq<string>, b: seq<string>, first: string, last: string)
    requires [first] + a + [last] == [first] + b + [last]
    ensures a == b
  {
    assert a == ([first] + a + [last])[1..|a| + 1];
    assert b == ([first] + b + [last])[1..|b| + 1];
  }

  /** The text determines the amount: two amounts that convert to the same
      text have the same magnitude in cents and the same sign (an amount of
      zero reads the same with either sign, as it is never below zero). */
  lemma AmountInWordsInjective(a: Amount, b: Amount)
    requires AmountInWords(a).Ok? && AmountInWords(b).Ok?
    requires AmountInWords(a).value == AmountInWords(b).value
    ensures a.cents == b.cents && a.IsBelowZero() == b.IsBelowZero()
  {
    AmountText(a);
    AmountText(b);
    NegativeIffBelowZero(a);
    NegativeIffBelowZero(b);
    var sign: seq<string> := if a.IsBelowZero() then ["NEGATIVE"] else [];
    var wa, fa := a.cents / 100, a.cents % 100;
    var wb, fb := b.cents / 100, b.cents % 100;
    TokensRegrouped(sign, NumberWords(wa), NumberWords(fa));
    TokensRegrouped(sign, NumberWords(wb), NumberWords(fb));
    var ra := NumberWords(wa) + ["DOLLARS"] + (["AND"] + NumberWords(fa) + ["CENTS"]);
    var rb := NumberWords(wb) + ["DOLLARS"] + (["AND"] + NumberWords(fb) + ["CENTS"]);
    assert sign + ra == sign + rb;
    assert ra == (sign + ra)[|sign|..] && rb == (sign + rb)[|sign|..];
    NoDollarsWord(wa);
    NoDollarsWord(wb);
    SplitAtMarker(NumberWords(wa), ["AND"] + NumberWords(fa) + ["CENTS"],
                  NumberWords(wb), ["AND"] + NumberWords(fb) + ["CENTS"], "DOLLARS");
    StripEnds(NumberWords(fa), NumberWords(fb), "AND", "CENTS");
    NumberWordsInjective(wa, wb);
    NumberWordsInjective(fa, fb);
  }
}
