/** Decimal numerals: `int()` of an ASCII digit run, `str()` of a
    non-negative integer, and the `{n:03d}` format. */
module Decimal {

  predicate IsDigit(ch: char)
  {
    '0' <= ch <= '9'
  }

  predicate AllDigits(s: string)
  {
    forall i :: 0 <= i < |s| ==> IsDigit(s[i])
  }

  function DigitValue(ch: char): (d: nat)
    requires IsDigit(ch)
    ensures d < 10
  {
    (ch as int) - ('0' as int)
  }

  function DigitChar(d: nat): (ch: char)
    requires d < 10
    ensures IsDigit(ch) && DigitValue(ch) == d
  {
    ('0' as int + d) as char
  }

  /** `int(s)` for a string of ASCII decimal digits: leading zeros allowed,
      no upper bound on the width. */
  function Value(s: string): nat
    requires AllDigits(s)
  {
    if s == [] then 0 else Value(s[..|s| - 1]) * 10 + DigitValue(s[|s| - 1])
  }

  /** `str(n)`: the shortest numeral of n. */
  function Numeral(n: nat): (s: string)
    ensures 1 <= |s| && AllDigits(s)
    ensures Value(s) == n
    ensures |s| > 1 ==> s[0] != '0'
    ensures n >= 10 ==> |s| >= 2
    ensures n >= 100 ==> |s| >= 3
    ensures n >= 1000 ==> |s| >= 4
  {
    if n < 10 then [DigitChar(n)]
    else
      var s := Numeral(n / 10) + [DigitChar(n % 10)];
      assert s[..|s| - 1] == Numeral(n / 10);
      s
  }

  /** Leading zeros do not change the value of a numeral. */
  lemma {:induction false} ValueLeadingZeros(z: nat, s: string)
    requires AllDigits(s)
    ensures AllDigits(Zeros(z) + s) && Value(Zeros(z) + s) == Value(s)
  {
    var t := Zeros(z) + s;
    assert AllDigits(t) by {
      forall i | 0 <= i < |t| ensures IsDigit(t[i]) {
        if i < z { assert t[i] == '0'; } else { assert t[i] == s[i - z]; }
      }
    }
    if s == [] {
      assert t == Zeros(z);
      ZerosValue(z);
    } else {
      var init := s[..|s| - 1];
      assert t[..|t| - 1] == Zeros(z) + init;
      ValueLeadingZeros(z, init);
    }
  }

  lemma {:induction false} ZerosValue(z: nat)
    ensures Value(Zeros(z)) == 0
  {
    if z > 0 {
      assert Zeros(z)[..z - 1] == Zeros(z - 1);
      ZerosValue(z - 1);
    }
  }

  function Zeros(z: nat): (s: string)
    ensures |s| == z && AllDigits(s)
  {
    seq(z, _ => '0')
  }

  /** `f"{n:03d}"`: the numeral of n left-padded with zeros to width 3. */
  function Pad3(n: nat): string
  {
    if n < 10 then "00" + Numeral(n)
    else if n < 100 then "0" + Numeral(n)
    else Numeral(n)
  }

  /** The padded numeral is all digits, reads back as n, is exactly three
      characters when n < 1000 and is never truncated. */
  lemma Pad3Spec(n: nat)
    ensures AllDigits(Pad3(n)) && Value(Pad3(n)) == n
    ensures n < 1000 ==> |Pad3(n)| == 3
    ensures |Pad3(n)| >= 3
    ensures n >= 1000 ==> Pad3(n) == Numeral(n)
  {
    NumeralWidth(n);
    if n < 10 {
      assert "00" == Zeros(2);
      ValueLeadingZeros(2, Numeral(n));
    } else if n < 100 {
      assert "0" == Zeros(1);
      ValueLeadingZeros(1, Numeral(n));
    }
  }

  /** The numeral has one digit below 10, two below 100, three below 1000. */
  lemma {:induction false} NumeralWidth(n: nat)
    ensures n < 10 ==> |Numeral(n)| == 1
    ensures 10 <= n < 100 ==> |Numeral(n)| == 2
    ensures 100 <= n < 1000 ==> |Numeral(n)| == 3
    ensures 100 <= n ==> |Numeral(n)| >= 3
  {
    if n >= 10 {
      NumeralWidth(n / 10);
    }
  }
}
