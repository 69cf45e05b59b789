/** Decimal text of integers: what boost::lexical_cast writes and reads. */
module Decimal {

  function Digit(d: nat): char
    requires d < 10
  {
    '0' + d as char
  }

  predicate IsDigit(c: char) { '0' <= c <= '9' }

  predicate AllDigits(s: string) {
    s == "" || (IsDigit(s[|s| - 1]) && AllDigits(s[..|s| - 1]))
  }

  lemma {:induction false} DigitAt(s: string, i: nat)
    requires AllDigits(s) && i < |s|
    ensures IsDigit(s[i])
  {
    if i < |s| - 1 { DigitAt(s[..|s| - 1], i); }
  }

  lemma {:induction false} DigitsCons(c: char, s: string)
    requires IsDigit(c) && AllDigits(s)
    ensures AllDigits([c] + s)
  {
    var t := [c] + s;
    if s == "" {
      assert t[..|t| - 1] == "";
    } else {
      DigitsCons(c, s[..|s| - 1]);
      assert t[..|t| - 1] == [c] + s[..|s| - 1];
    }
  }

  /** Nothing but digits and a leading minus. */
  lemma OfIntChars(n: int, i: nat)
    requires i < |OfInt(n)|
    ensures IsDigit(OfInt(n)[i]) || (i == 0 && n < 0 && OfInt(n)[i] == '-')
  {
    if n >= 0 {
      DigitAt(OfNat(n), i);
    } else if i > 0 {
      DigitAt(OfNat(-n), i - 1);
    }
  }

  function DigitValue(c: char): nat
    requires IsDigit(c)
  {
    c as int - '0' as int
  }

  function OfNat(n: nat): (s: string)
    ensures s != "" && AllDigits(s)
    decreases n
  {
    if n < 10 then [Digit(n)] else OfNat(n / 10) + [Digit(n % 10)]
  }

  function OfInt(n: int): string {
    if n < 0 then "-" + OfNat(-n) else OfNat(n)
  }

  /** Value of a string of digits; the empty string counts as 0. */
  function ValueOf(s: string): (n: nat)
    requires AllDigits(s)
  {
    if s == "" then 0 else 10 * ValueOf(s[..|s| - 1]) + DigitValue(s[|s| - 1])
  }

  lemma {:induction false} ValueOfNat(n: nat)
    ensures ValueOf(OfNat(n)) == n
  {
    if n >= 10 {
      var front := OfNat(n / 10);
      assert OfNat(n)[..|OfNat(n)| - 1] == front;
      ValueOfNat(n / 10);
    }
  }

  lemma OfIntDigits(a: int)
    ensures if a < 0 then OfInt(a)[0] == '-' && AllDigits(OfInt(a)[1..]) && ValueOf(OfInt(a)[1..]) == -a
            else AllDigits(OfInt(a)) && ValueOf(OfInt(a)) == a
  {
    if a < 0 {
      ValueOfNat(-a);
      assert OfInt(a)[1..] == OfNat(-a);
    } else {
      ValueOfNat(a);
    }
  }

  /** One number as it is written. */
  lemma OfIntText()
    ensures OfInt(-1203) == "-1203" && OfInt(0) == "0" && OfInt(70) == "70"
  {
    assert OfNat(1) == "1" && OfNat(12) == "12" && OfNat(120) == "120" && OfNat(1203) == "1203";
  }

  /** Decimal texts differ for different numbers. */
  lemma OfIntInjective(a: int, b: int)
    requires OfInt(a) == OfInt(b)
    ensures a == b
  {
    OfIntDigits(a);
    OfIntDigits(b);
    if a >= 0 { DigitAt(OfInt(a), 0); }
    if b >= 0 { DigitAt(OfInt(b), 0); }
  }
}
