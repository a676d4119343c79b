/** Decimal digit characters, the whole numbers that strings of them spell,
    and the reversal of a sequence. */
module DecimalDigits {

  /** A decimal digit character, '0' to '9'. */
  type Digit = c: char | '0' <= c <= '9' witness '0'

  /** The value 0..9 of a digit character. */
  function DigitValue(d: Digit): (v: nat)
    ensures v < 10
  {
    d as int - '0' as int
  }

  /** The digit character that stands for the value v. */
  function DigitChar(v: nat): (d: Digit)
    requires v < 10
    ensures DigitValue(d) == v
  {
    ('0' as int + v) as char
  }

  lemma DigitCharOfValue(d: Digit)
    ensures DigitChar(DigitValue(d)) == d
  {
  }

  /** The whole number a digit string spells, most significant digit first. */
  function DigitsValue(s: seq<Digit>): (v: nat)
  {
    if s == [] then 0 else 10 * DigitsValue(s[..|s| - 1]) + DigitValue(s[|s| - 1])
  }

  /** 10^k. */
  function Pow10(k: nat): (p: nat)
    ensures p >= 1
  {
    if k == 0 then 1 else 10 * Pow10(k - 1)
  }

  /** A digit string of length k spells a number below 10^k. */
  lemma {:induction false} DigitsValueBound(s: seq<Digit>)
    ensures DigitsValue(s) < Pow10(|s|)
  {
    if s != [] {
      DigitsValueBound(s[..|s| - 1]);
    }
  }

  /** A digit string of at most three digits spells a number below 1000. */
  lemma ThreeDigitsBound(s: seq<Digit>)
    requires |s| <= 3
    ensures DigitsValue(s) < 1000
  {
    DigitsValueBound(s);
    assert Pow10(3) == 1000;
  }

  /** The decimal digit of n in the column of weight 10^k (0 = ones, 1 = tens, ...). */
  function DecimalDigitAt(n: nat, k: nat): (d: nat)
    ensures d < 10
  {
    if k == 0 then n % 10 else DecimalDigitAt(n / 10, k - 1)
  }

  lemma {:induction false} DecimalDigitAtZero(k: nat)
    ensures DecimalDigitAt(0, k) == 0
  {
    if k > 0 {
      DecimalDigitAtZero(k - 1);
    }
  }

  /** The three lowest decimal digits of a number below 1000 are its
      hundreds, tens and ones. */
  lemma ThreeDecimalDigits(n: nat)
    requires n < 1000
    ensures DecimalDigitAt(n, 2) == n / 100
    ensures DecimalDigitAt(n, 1) == n / 10 % 10
    ensures DecimalDigitAt(n, 0) == n % 10
    ensures n == 100 * DecimalDigitAt(n, 2) + 10 * DecimalDigitAt(n, 1) + DecimalDigitAt(n, 0)
  {
    assert DecimalDigitAt(n, 2) == DecimalDigitAt(n / 10 / 10, 0);
  }

  /** A number below 1000 is 100 times its hundreds digit plus 10 times its
      tens digit plus its ones digit, and its last two digits form n % 100. */
  lemma HundredsTensOnes(n: nat)
    requires n < 1000
    ensures n / 100 < 10
    ensures n == 100 * (n / 100) + 10 * (n / 10 % 10) + n % 10
    ensures n % 100 == 10 * (n / 10 % 10) + n % 10
    ensures n % 100 / 100 == 0 && n % 100 / 10 % 10 == n / 10 % 10 && n % 100 % 10 == n % 10
  {
    var q, r := n / 100, n % 100;
    assert n == 100 * q + r;
    assert n / 10 == 10 * q + r / 10;
    assert r / 10 < 10;
  }

  /** Column k of a digit string, counted from its least significant end, holds
      the k-th decimal digit of the number it spells; every column beyond the
      string's length is a zero digit of that number. */
  lemma {:induction false} ColumnIsDecimalDigit(s: seq<Digit>, k: nat)
    ensures k < |s| ==> s[|s| - 1 - k] == DigitChar(DecimalDigitAt(DigitsValue(s), k))
    ensures k >= |s| ==> DecimalDigitAt(DigitsValue(s), k) == 0
  {
    if s == [] {
      DecimalDigitAtZero(k);
    } else {
      var init, last := s[..|s| - 1], s[|s| - 1];
      var v := DigitsValue(s);
      assert v == 10 * DigitsValue(init) + DigitValue(last);
      if k == 0 {
        DigitCharOfValue(last);
      } else {
        assert v / 10 == DigitsValue(init);
        ColumnIsDecimalDigit(init, k - 1);
        if k < |s| {
          assert init[|init| - 1 - (k - 1)] == s[|s| - 1 - k];
        }
      }
    }
  }

  /** A digit string spells zero exactly when every one of its digits is '0'
      (the empty string included). */
  lemma {:induction false} ZeroValueIffAllZeroDigits(s: seq<Digit>)
    ensures DigitsValue(s) == 0 <==> forall i :: 0 <= i < |s| ==> s[i] == '0'
  {
    if s != [] {
      var init := s[..|s| - 1];
      ZeroValueIffAllZeroDigits(init);
      assert forall i :: 0 <= i < |init| ==> init[i] == s[i];
    }
  }

  /** The shortest digit string that spells n: "0" for zero, and otherwise
      no leading '0'. This is how a whole number is printed. */
  function NatToDigits(n: nat): (s: seq<Digit>)
    ensures DigitsValue(s) == n
    ensures |s| >= 1 && (|s| == 1 || s[0] != '0')
  {
    if n < 10 then [DigitChar(n)] else NatToDigits(n / 10) + [DigitChar(n % 10)]
  }

  /** A whole number is printed with at most three digits exactly when it is below 1000. */
  lemma NatToDigitsLength(n: nat)
    ensures |NatToDigits(n)| <= 3 <==> n < 1000
  {
    if n >= 1000 {
      assert |NatToDigits(n)| == |NatToDigits(n / 10)| + 1;
      assert |NatToDigits(n / 10)| == |NatToDigits(n / 10 / 10)| + 1;
      assert |NatToDigits(n / 10 / 10)| == |NatToDigits(n / 10 / 10 / 10)| + 1;
    } else if n >= 100 {
      assert |NatToDigits(n)| == |NatToDigits(n / 10)| + 1;
      assert |NatToDigits(n / 10)| == |NatToDigits(n / 10 / 10)| + 1;
      assert n / 10 / 10 < 10;
    } else if n >= 10 {
      assert |NatToDigits(n)| == |NatToDigits(n / 10)| + 1;
      assert n / 10 < 10;
    }
  }

  /** The exactly-two-digit string of a value below 100, with a leading '0' when needed. */
  function TwoDigits(v: nat): (s: seq<Digit>)
    requires v < 100
    ensures |s| == 2 && DigitsValue(s) == v
  {
    var s := [DigitChar(v / 10), DigitChar(v % 10)];
    assert s[..1][..0] == [];
    assert DigitsValue(s[..1]) == v / 10;
    assert DigitsValue(s) == 10 * DigitsValue(s[..1]) + v % 10;
    s
  }

  /** The sequence read backwards. */
  function Reversed<T>(s: seq<T>): (r: seq<T>)
  {
    seq(|s|, i requires 0 <= i < |s| => s[|s| - 1 - i])
  }

  /** Reversing is its own inverse, so no information is lost. */
  lemma ReversedTwice<T>(s: seq<T>)
    ensures Reversed(Reversed(s)) == s
  {
  }
}
