/**
 * Decimal texts: Python's int() on a run of ASCII digits, str() of an
 * integer, zero-padded fields of strftime, and the repr of a float that
 * holds a whole number of thousandths (a voltage parsed from millivolts).
 */
module Decimal {
  import opened Wrappers
  import Text

  predicate IsDigit(c: char)
  {
    '0' <= c <= '9'
  }

  predicate AllDigits(s: string)
  {
    forall i :: 0 <= i < |s| ==> IsDigit(s[i])
  }

  function DigitValue(c: char): nat
    requires IsDigit(c)
  {
    c as int - '0' as int
  }

  function DigitChar(d: nat): (c: char)
    requires d < 10
    ensures IsDigit(c) && DigitValue(c) == d
  {
    ('0' as int + d) as char
  }

  function Pow10(k: nat): (p: nat)
    ensures p >= 1
  {
    if k == 0 then 1 else 10 * Pow10(k - 1)
  }

  /** The value of a run of digits, most significant first; leading zeros allowed. */
  function DigitsValue(s: string): nat
    requires AllDigits(s)
  {
    if s == [] then 0 else DigitsValue(s[..|s| - 1]) * 10 + DigitValue(s[|s| - 1])
  }

  /** Shortest decimal text of n, as str(n). */
  function NatText(n: nat): (r: string)
    ensures |r| >= 1 && AllDigits(r)
  {
    if n < 10 then [DigitChar(n)] else NatText(n / 10) + [DigitChar(n % 10)]
  }

  /** The w low-order digits of n, zero-padded, as strftime's %02d / %04d. */
  function Pad(n: nat, w: nat): (r: string)
    ensures |r| == w && AllDigits(r)
  {
    if w == 0 then [] else Pad(n / 10, w - 1) + [DigitChar(n % 10)]
  }

  /** str(i) for a Python int. */
  function IntText(i: int): string
  {
    if i < 0 then "-" + NatText(-i) else NatText(i)
  }

  /** int(s) for a non-empty run of ASCII digits; None for anything else. */
  function ParseNat(s: string): Option<nat>
  {
    if |s| > 0 && AllDigits(s) then Some(DigitsValue(s)) else None
  }

  /** An optionally negative integer, as written by IntText. */
  function ParseInt(s: string): Option<int>
  {
    if |s| > 0 && s[0] == '-' then
      match ParseNat(s[1..])
      case Some(n) => Some(-(n as int))
      case None => None
    else ParseNat(s)
  }

  /** Fraction digits of f/1000 with trailing zeros removed, at least one digit kept. */
  function FracText(f: nat): string
    requires f < 1000
  {
    if f % 100 == 0 then Pad(f / 100, 1)
    else if f % 10 == 0 then Pad(f / 10, 2)
    else Pad(f, 3)
  }

  /** repr(m / 1000.0): the exact decimal, e.g. 4106 -> "4.106", 4100 -> "4.1", -58 -> "-0.058". */
  function MilliText(m: int): string
  {
    var a := if m < 0 then -m else m;
    (if m < 0 then "-" else "") + NatText(a / 1000) + "." + FracText(a % 1000)
  }

  /** Thousandths denoted by an unsigned decimal: digits, optionally '.' and one to three digits. */
  function ParseUnsignedMilli(s: string): Option<nat>
  {
    var k := Text.IndexOf(s, '.');
    match ParseNat(s[..k])
    case None => None
    case Some(whole) =>
      if k == |s| then Some(whole * 1000)
      else
        var frac := s[k + 1..];
        if 1 <= |frac| <= 3 && AllDigits(frac)
        then Some(whole * 1000 + DigitsValue(frac) * Pow10(3 - |frac|))
        else None
  }

  /** The thousandths denoted by an optionally negative decimal text. */
  function ParseMilli(s: string): Option<int>
  {
    if |s| > 0 && s[0] == '-' then
      match ParseUnsignedMilli(s[1..])
      case Some(n) => Some(-(n as int))
      case None => None
    else ParseUnsignedMilli(s)
  }

  lemma {:induction false} NatTextValue(n: nat)
    ensures DigitsValue(NatText(n)) == n
  {
    if n >= 10 {
      var s := NatText(n);
      assert s[..|s| - 1] == NatText(n / 10);
      NatTextValue(n / 10);
    }
  }

  lemma {:induction false} PadValue(n: nat, w: nat)
    requires n < Pow10(w)
    ensures DigitsValue(Pad(n, w)) == n
  {
    if w > 0 {
      var s := Pad(n, w);
      assert s[..|s| - 1] == Pad(n / 10, w - 1);
      assert n / 10 < Pow10(w - 1);
      PadValue(n / 10, w - 1);
    }
  }

  /** Padding the value of a digit run to its own width gives the run back. */
  lemma {:induction false} PadOfValue(s: string)
    requires AllDigits(s)
    ensures Pad(DigitsValue(s), |s|) == s
  {
    if s != [] {
      var init := s[..|s| - 1];
      var v := DigitsValue(s);
      assert v / 10 == DigitsValue(init) && v % 10 == DigitValue(s[|s| - 1]);
      PadOfValue(init);
      assert DigitChar(v % 10) == s[|s| - 1];
      assert s == init + [s[|s| - 1]];
    }
  }

  lemma IntTextRoundTrip(i: int)
    ensures ParseInt(IntText(i)) == Some(i)
  {
    NatTextValue(if i < 0 then -i else i);
    if i < 0 {
      assert IntText(i)[1..] == NatText(-i);
    } else {
      assert IntText(i)[0] == NatText(i)[0];
    }
  }

  lemma FracTextValue(f: nat)
    requires f < 1000
    ensures 1 <= |FracText(f)| <= 3 && AllDigits(FracText(f))
    ensures DigitsValue(FracText(f)) * Pow10(3 - |FracText(f)|) == f
  {
    assert Pow10(1) == 10 && Pow10(2) == 100 && Pow10(3) == 1000;
    if f % 100 == 0 {
      PadValue(f / 100, 1);
    } else if f % 10 == 0 {
      PadValue(f / 10, 2);
    } else {
      PadValue(f, 3);
    }
  }

  /** The first '.' of a digit run followed by '.' is the one after the run. */
  lemma {:induction false} DotAfterDigits(w: string, f: string)
    requires AllDigits(w)
    ensures Text.IndexOf(w + "." + f, '.') == |w|
  {
    if w != [] {
      assert (w + "." + f)[1..] == w[1..] + "." + f;
      DotAfterDigits(w[1..], f);
    }
  }

  lemma ParseUnsignedMilliOf(q: nat, f: string, n: nat)
    requires 1 <= |f| <= 3 && AllDigits(f)
    requires n == q * 1000 + DigitsValue(f) * Pow10(3 - |f|)
    ensures ParseUnsignedMilli(NatText(q) + "." + f) == Some(n)
  {
    var w := NatText(q);
    var s := w + "." + f;
    DotAfterDigits(w, f);
    assert s[..|w|] == w;
    assert s[|w| + 1..] == f;
    NatTextValue(q);
    assert ParseNat(w) == Some(q);
  }

  lemma UnsignedMilliRoundTrip(a: nat)
    ensures ParseUnsignedMilli(NatText(a / 1000) + "." + FracText(a % 1000)) == Some(a)
  {
    FracTextValue(a % 1000);
    ParseUnsignedMilliOf(a / 1000, FracText(a % 1000), a);
  }

  /** Reading back the text of a voltage recovers its exact number of millivolts. */
  lemma MilliTextRoundTrip(m: int)
    ensures ParseMilli(MilliText(m)) == Some(m)
  {
    if m < 0 {
      NegativeMilliText(m);
    } else {
      UnsignedMilliText(m);
    }
  }

  lemma UnsignedMilliText(m: nat)
    ensures ParseMilli(MilliText(m)) == Some(m)
  {
    var u := NatText(m / 1000) + "." + FracText(m % 1000);
    assert MilliText(m) == u;
    assert u[0] == NatText(m / 1000)[0];
    UnsignedMilliRoundTrip(m);
    ParseMilliUnsigned(u, m);
  }

  lemma ParseMilliUnsigned(s: string, a: nat)
    requires |s| > 0 && IsDigit(s[0]) && ParseUnsignedMilli(s) == Some(a)
    ensures ParseMilli(s) == Some(a)
  {
  }

  lemma NegativeMilliText(m: int)
    requires m < 0
    ensures ParseMilli(MilliText(m)) == Some(m)
  {
    var a: nat := -m;
    var u := NatText(a / 1000) + "." + FracText(a % 1000);
    var s := MilliText(m);
    assert s == "-" + u;
    assert s[1..] == u;
    UnsignedMilliRoundTrip(a);
    ParseMilliNegative(s, a);
  }

  lemma ParseMilliNegative(s: string, a: nat)
    requires |s| > 0 && s[0] == '-' && ParseUnsignedMilli(s[1..]) == Some(a)
    ensures ParseMilli(s) == Some(-(a as int))
  {
  }
}
