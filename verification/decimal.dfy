/**
 * Decimal text of natural numbers: the zero-padded rendering of fmt's `%0<w>d`
 * verb, and the value of a run of ASCII digits as `time.Parse` reads it.
 */
module Decimal {

  predicate IsDigit(c: char) {
    '0' <= c <= '9'
  }

  predicate AllDigits(s: string) {
    forall i :: 0 <= i < |s| ==> IsDigit(s[i])
  }

  function DigitValue(c: char): (k: int)
    requires IsDigit(c)
    ensures 0 <= k <= 9
  {
    c as int - '0' as int
  }

  function DigitChar(k: int): (c: char)
    requires 0 <= k <= 9
    ensures IsDigit(c) && DigitValue(c) == k
  {
    ('0' as int + k) as char
  }

  function Pow10(w: nat): (p: nat)
    ensures p >= 1
  {
    if w == 0 then 1 else 10 * Pow10(w - 1)
  }

  /** The last `w` decimal digits of `n`, most significant first. */
  function Fixed(n: nat, w: nat): (s: string)
    ensures |s| == w && AllDigits(s)
  {
    if w == 0 then "" else Fixed(n / 10, w - 1) + [DigitChar(n % 10)]
  }

  /** The number of decimal digits of `n` (zero has one). */
  function DigitCount(n: nat): (k: nat)
    ensures k >= 1
  {
    if n < 10 then 1 else 1 + DigitCount(n / 10)
  }

  /** fmt's `%0<w>d` of a natural number: all its digits, padded on the left
      with zeros to at least `w` characters. */
  function ZeroPad(n: nat, w: nat): string {
    Fixed(n, if DigitCount(n) < w then w else DigitCount(n))
  }

  /** fmt's `%0<w>d` of a signed integer: a minus sign, when there is one,
      counts toward the width and the zeros go after it. */
  function FormatInt(n: int, w: nat): string {
    if n < 0 then "-" + ZeroPad(-n, if w > 0 then w - 1 else 0) else ZeroPad(n, w)
  }

  /** The value of a run of decimal digits. */
  function ValueOf(s: string): nat
    requires AllDigits(s)
  {
    if s == "" then 0 else 10 * ValueOf(s[..|s| - 1]) + DigitValue(s[|s| - 1])
  }

  // ---------------------------------------------------------------------------
  // Lemmas

  /** Reading back `w` digits of a number below 10^w gives the number. */
  lemma {:induction false} FixedValue(n: nat, w: nat)
    requires n < Pow10(w)
    ensures ValueOf(Fixed(n, w)) == n
    decreases w
  {
    if w > 0 {
      var s := Fixed(n, w);
      assert s[..w - 1] == Fixed(n / 10, w - 1);
      FixedValue(n / 10, w - 1);
    }
  }

  /** Rendering the value of a run of digits at its own width gives the run back. */
  lemma {:induction false} FixedOfValue(s: string)
    requires AllDigits(s)
    ensures Fixed(ValueOf(s), |s|) == s
    decreases |s|
  {
    if s != "" {
      var prefix, last := s[..|s| - 1], s[|s| - 1];
      FixedOfValue(prefix);
      var v := ValueOf(s);
      assert v / 10 == ValueOf(prefix) && v % 10 == DigitValue(last);
      assert DigitChar(DigitValue(last)) == last;
      assert s == prefix + [last];
    }
  }

  /** A run of `w` digits is worth less than 10^w. */
  lemma {:induction false} ValueOfBound(s: string)
    requires AllDigits(s)
    ensures ValueOf(s) < Pow10(|s|)
    decreases |s|
  {
    if s != "" {
      ValueOfBound(s[..|s| - 1]);
    }
  }

  /** A number has `w` digits or fewer exactly when it is below 10^w. */
  lemma {:induction false} DigitCountBound(n: nat, w: nat)
    ensures n < Pow10(DigitCount(n))
    ensures w >= 1 && n < Pow10(w) ==> DigitCount(n) <= w
    decreases n
  {
    if n >= 10 {
      if w >= 1 {
        DigitCountBound(n / 10, w - 1);
      } else {
        DigitCountBound(n / 10, 0);
      }
    }
  }

  /** A number of at least 10^w has more than `w` digits. */
  lemma {:induction false} DigitCountAbove(n: nat, w: nat)
    requires n >= Pow10(w)
    ensures DigitCount(n) > w
    decreases w
  {
    if w > 0 {
      DigitCountAbove(n / 10, w - 1);
    }
  }

  /** `%0<w>d` is read back as the number it renders, and a number below 10^w
      renders as exactly `w` digits. */
  lemma ZeroPadValue(n: nat, w: nat)
    ensures ValueOf(ZeroPad(n, w)) == n
    ensures w >= 1 && n < Pow10(w) ==> ZeroPad(n, w) == Fixed(n, w)
  {
    var k := DigitCount(n);
    DigitCountBound(n, w);
    if k < w {
      PowMonotone(k, w);
    }
    FixedValue(n, if k < w then w else k);
  }

  /** The value of a two-digit run: ten times its first digit plus its second. */
  lemma ValueOfTwoDigits(s: string)
    requires |s| == 2 && AllDigits(s)
    ensures ValueOf(s) == 10 * DigitValue(s[0]) + DigitValue(s[1])
  {
    var first := s[..1];
    assert first[..0] == "" && first[0] == s[0];
    assert ValueOf(first) == DigitValue(s[0]);
  }

  lemma {:induction false} PowMonotone(a: nat, b: nat)
    requires a <= b
    ensures Pow10(a) <= Pow10(b)
    decreases b - a
  {
    if a < b {
      PowMonotone(a, b - 1);
    }
  }
}
