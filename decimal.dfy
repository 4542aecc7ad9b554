/**
 * Decimal text of integers as the JDK writes and reads it: `String.valueOf(int)`,
 * the `%0<width>d` conversion of `String.format`, and fixed-width digit fields.
 * Only ASCII digits are produced and accepted (no locale-specific digits).
 */
module Decimal {
  import opened Wrappers

  predicate IsDigit(c: char) {
    '0' <= c <= '9'
  }

  predicate AllDigits(s: string) {
    forall i :: 0 <= i < |s| ==> IsDigit(s[i])
  }

  function Pow10(n: nat): (p: nat)
    ensures p >= 1
  {
    if n == 0 then 1 else 10 * Pow10(n - 1)
  }

  function DigitChar(d: nat): (c: char)
    requires d < 10
    ensures IsDigit(c) && c as int - '0' as int == d
  {
    ('0' as int + d) as char
  }

  function DigitValue(c: char): (d: nat)
    requires IsDigit(c)
    ensures d < 10 && DigitChar(d) == c
  {
    c as int - '0' as int
  }

  /** The shortest decimal text of `n` (no sign, no leading zeros). */
  function NatText(n: nat): (s: string)
    ensures 1 <= |s| && AllDigits(s)
    ensures |s| > 1 ==> s[0] != '0'
  {
    if n < 10 then [DigitChar(n)] else NatText(n / 10) + [DigitChar(n % 10)]
  }

  /** The number that a string of decimal digits denotes (most significant first). */
  function DigitsValue(s: string): nat
    requires AllDigits(s)
  {
    if s == [] then 0 else DigitsValue(s[..|s| - 1]) * 10 + DigitValue(s[|s| - 1])
  }

  /** `Integer.toString(i)`, which is what `String.valueOf(i)` and `"" + i` print. */
  function IntText(i: int): (s: string)
    ensures |s| >= 1 && (s[0] == '-' <==> i < 0)
    ensures AllDigits(s[if i < 0 then 1 else 0..])
  {
    if i < 0 then "-" + NatText(-i) else NatText(i)
  }

  function Zeros(k: nat): (z: string)
    ensures |z| == k && AllDigits(z)
    ensures forall j :: 0 <= j < k ==> z[j] == '0'
  {
    if k == 0 then [] else Zeros(k - 1) + "0"
  }

  /** The digits of `n`, with zeros in front to reach `width` characters. */
  function PadDigits(n: nat, width: nat): (s: string)
    ensures AllDigits(s) && |s| >= width && |s| >= 1
  {
    var t := NatText(n);
    if |t| < width then Zeros(width - |t|) + t else t
  }

  /**
   * The `%0<width>d` conversion of `java.util.Formatter`: the minus sign of a negative
   * value counts towards the width, so `%04d` prints -5 as "-005".
   */
  function ZeroPad(i: int, width: nat): (s: string)
    ensures |s| >= width && |s| >= 1 && (s[0] == '-' <==> i < 0)
    ensures AllDigits(s[if i < 0 then 1 else 0..])
  {
    if i < 0 then "-" + PadDigits(-i, if width == 0 then 0 else width - 1) else PadDigits(i, width)
  }

  /** An optional minus sign followed by at least one digit; the inverse of IntText. */
  function ParseInt(s: string): Option<int> {
    if |s| >= 2 && s[0] == '-' && AllDigits(s[1..]) then Some(-(DigitsValue(s[1..]) as int))
    else if |s| >= 1 && AllDigits(s) then Some(DigitsValue(s))
    else None
  }

  /** Appending a digit to a positive number appends its character to the text. */
  lemma NatTextAppend(n: nat, d: nat)
    requires 1 <= n && d < 10
    ensures NatText(10 * n + d) == NatText(n) + [DigitChar(d)]
  {
    assert (10 * n + d) / 10 == n && (10 * n + d) % 10 == d;
  }

  /** A number that already has `width` digits is not padded. */
  lemma PadDigitsFull(n: nat, width: nat)
    requires width <= |NatText(n)|
    ensures PadDigits(n, width) == NatText(n)
  {
  }

  /** A one-digit number padded to two places. */
  lemma PadOneDigit(d: nat)
    requires d < 10
    ensures PadDigits(d, 2) == ['0', DigitChar(d)]
  {
    assert Zeros(1) == "0";
  }

  lemma {:induction false} NatTextValue(n: nat)
    ensures DigitsValue(NatText(n)) == n
  {
    if n >= 10 {
      var s := NatText(n);
      assert s[..|s| - 1] == NatText(n / 10);
      NatTextValue(n / 10);
    }
  }

  lemma {:induction false} LeadingZerosValue(k: nat, t: string)
    requires AllDigits(t)
    ensures DigitsValue(Zeros(k) + t) == DigitsValue(t)
  {
    if t == [] {
      assert Zeros(k) + t == Zeros(k);
      ZerosValue(k);
    } else {
      var s := Zeros(k) + t;
      assert s[..|s| - 1] == Zeros(k) + t[..|t| - 1];
      LeadingZerosValue(k, t[..|t| - 1]);
    }
  }

  lemma {:induction false} ZerosValue(k: nat)
    ensures DigitsValue(Zeros(k)) == 0
  {
    if k > 0 {
      assert Zeros(k)[..k - 1] == Zeros(k - 1);
      ZerosValue(k - 1);
    }
  }

  /** Zero padding does not change the value that the digits denote. */
  lemma PadDigitsValue(n: nat, width: nat)
    ensures DigitsValue(PadDigits(n, width)) == n
  {
    var t := NatText(n);
    NatTextValue(n);
    if |t| < width {
      assert PadDigits(n, width) == Zeros(width - |t|) + t;
      LeadingZerosValue(width - |t|, t);
    } else {
      assert PadDigits(n, width) == t;
    }
  }

  lemma {:induction false} NatTextLength(n: nat, width: nat)
    requires 1 <= width && n < Pow10(width)
    ensures |NatText(n)| <= width
  {
    if n >= 10 {
      assert Pow10(width) == 10 * Pow10(width - 1);
      assert n / 10 < Pow10(width - 1);
      NatTextLength(n / 10, width - 1);
    }
  }

  /** A value below 10^width takes exactly `width` characters once padded. */
  lemma PadDigitsLength(n: nat, width: nat)
    requires 1 <= width && n < Pow10(width)
    ensures |PadDigits(n, width)| == width
  {
    NatTextLength(n, width);
  }

  lemma {:induction false} DigitsValueBound(s: string)
    requires AllDigits(s)
    ensures DigitsValue(s) < Pow10(|s|)
  {
    if s != [] {
      DigitsValueBound(s[..|s| - 1]);
    }
  }

  lemma {:induction false} Pow10Add(a: nat, b: nat)
    ensures Pow10(a + b) == Pow10(a) * Pow10(b)
  {
    if a > 0 {
      Pow10Add(a - 1, b);
    }
  }

  /** ParseInt reads back exactly what IntText prints. */
  lemma IntTextRoundTrip(i: int)
    ensures ParseInt(IntText(i)) == Some(i)
  {
    var n: nat := if i < 0 then -i else i;
    NatTextValue(n);
    ParseDigits(NatText(n));
  }

  /** A digit string reads as its value, and with a minus sign in front as its negation. */
  lemma ParseDigits(t: string)
    requires t != [] && AllDigits(t)
    ensures ParseInt(t) == Some(DigitsValue(t))
    ensures ParseInt("-" + t) == Some(-(DigitsValue(t) as int))
  {
    var s := "-" + t;
    assert s[0] == '-' && s[1..] == t;
  }

  /** The characters of IntText are a minus sign and digits only. */
  lemma IntTextChars(i: int)
    ensures forall j :: 0 <= j < |IntText(i)| ==> IntText(i)[j] == '-' || IsDigit(IntText(i)[j])
  {
  }

  /** IntText is injective: two integers with the same text are equal. */
  lemma IntTextInjective(i: int, j: int)
    requires IntText(i) == IntText(j)
    ensures i == j
  {
    IntTextRoundTrip(i);
    IntTextRoundTrip(j);
  }

  /** For a non-negative value, `%0<width>d` is plain zero padding. */
  lemma ZeroPadNonNegative(i: int, width: nat)
    requires 0 <= i
    ensures ZeroPad(i, width) == PadDigits(i, width)
    ensures DigitsValue(ZeroPad(i, width)) == i
  {
    PadDigitsValue(i, width);
  }
}
