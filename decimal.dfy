/** Decimal text as the hex grid reads and writes it: the digit strings that
    Python's int() accepts and the numerals that the '{:02d}' format produces. */
module Decimal {

  predicate IsDigit(c: char) {
    '0' <= c <= '9'
  }

  predicate AllDigits(s: string) {
    forall i :: 0 <= i < |s| ==> IsDigit(s[i])
  }

  function DigitValue(c: char): (d: int)
    requires IsDigit(c)
    ensures 0 <= d <= 9
  {
    c as int - '0' as int
  }

  function DigitChar(d: int): (c: char)
    requires 0 <= d <= 9
    ensures IsDigit(c) && DigitValue(c) == d
  {
    ('0' as int + d) as char
  }

  lemma DigitCharOfValue(c: char)
    requires IsDigit(c)
    ensures DigitChar(DigitValue(c)) == c
  {
  }

  /** The value of a string of decimal digits, as int() reads it. */
  function DecimalValue(s: string): nat
    requires AllDigits(s)
  {
    if s == [] then 0 else DecimalValue(s[..|s| - 1]) * 10 + DigitValue(s[|s| - 1])
  }

  /** The numeral str(n) of a natural number: no leading zeros, "0" for zero. */
  function Digits(n: nat): (s: string)
    ensures |s| == 1 <==> n < 10
    ensures n >= 10 ==> |s| >= 2 && s[0] != '0'
    ensures n >= 100 ==> |s| >= 3
  {
    if n < 10 then [DigitChar(n)]
    else Digits(n / 10) + [DigitChar(n % 10)]
  }

  /** The numeral of n is made of digits and int() reads it back as n. */
  lemma {:induction false} DigitsValue(n: nat)
    ensures AllDigits(Digits(n)) && DecimalValue(Digits(n)) == n
    decreases n
  {
    if n >= 10 {
      DigitsValue(n / 10);
      var s := Digits(n);
      assert s[..|s| - 1] == Digits(n / 10);
    }
  }

  /** '{:02d}'.format(n): the numeral of n, padded with zeros after the sign to
      a width of two; a negative number already has that width with its sign. */
  function Pad2(n: int): string {
    if n < 0 then "-" + Digits(-n)
    else if n < 10 then "0" + Digits(n)
    else Digits(n)
  }

  /** The padded numeral is a sign or digits, all digits exactly when n is not
      negative, and then int() reads it back as n. */
  lemma Pad2Value(n: int)
    ensures |Pad2(n)| >= 2
    ensures |Pad2(n)| == 2 <==> -9 <= n <= 99
    ensures forall i :: 0 <= i < |Pad2(n)| ==> Pad2(n)[i] == '-' || IsDigit(Pad2(n)[i])
    ensures AllDigits(Pad2(n)) <==> n >= 0
    ensures n >= 0 ==> DecimalValue(Pad2(n)) == n
  {
    var s := Pad2(n);
    if n < 0 {
      DigitsValue(-n);
      assert !IsDigit(s[0]);
      assert forall i :: 1 <= i < |s| ==> s[i] == Digits(-n)[i - 1];
    } else if n < 10 {
      DigitsValue(n);
      assert s[..1] == "0";
      assert s == "0" + Digits(n);
    } else {
      DigitsValue(n);
    }
  }

  /** A two-digit string reads as tens and units. */
  lemma TwoDigitsValue(s: string)
    requires |s| == 2 && AllDigits(s)
    ensures DecimalValue(s) == 10 * DigitValue(s[0]) + DigitValue(s[1])
  {
    assert s[..1][..0] == [];
    assert DecimalValue(s[..1]) == DigitValue(s[0]);
  }

  /** Ten times hi plus a digit lo splits back into hi and lo. */
  lemma TensAndUnits(hi: int, lo: int)
    requires 0 <= lo <= 9
    ensures (10 * hi + lo) / 10 == hi && (10 * hi + lo) % 10 == lo
  {
  }

  /** Reading two digits and formatting them again gives the same two digits. */
  lemma Pad2OfTwoDigits(s: string)
    requires |s| == 2 && AllDigits(s)
    ensures Pad2(DecimalValue(s)) == s
  {
    var hi, lo := DigitValue(s[0]), DigitValue(s[1]);
    var n := 10 * hi + lo;
    TwoDigitsValue(s);
    DigitCharOfValue(s[0]);
    DigitCharOfValue(s[1]);
    assert s == [DigitChar(hi)] + [DigitChar(lo)];
    if hi == 0 {
      assert n == lo;
      assert Pad2(n) == "0" + [DigitChar(lo)];
    } else {
      TensAndUnits(hi, lo);
      assert Digits(n) == Digits(hi) + [DigitChar(lo)];
      assert Digits(hi) == [DigitChar(hi)];
    }
  }
}
