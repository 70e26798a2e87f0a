/** Decimal numerals as the standard library prints and parses them. */
module Decimal {
  import opened Numbers
  import opened Outcomes

  const ZERO: byte := '0' as int

  predicate IsDigit(b: byte) {
    '0' as int <= b <= '9' as int
  }

  predicate AllDigits(s: seq<byte>) {
    forall i :: 0 <= i < |s| ==> IsDigit(s[i])
  }

  function DigitValues(s: seq<byte>): (ds: seq<nat>)
    requires AllDigits(s)
    ensures |ds| == |s| && AllBelow(10, ds)
  {
    seq(|s|, i requires 0 <= i < |s| => s[i] - ZERO)
  }

  function DigitChars(ds: seq<nat>): (s: seq<byte>)
    requires AllBelow(10, ds)
    ensures |s| == |ds| && AllDigits(s) && DigitValues(s) == ds
  {
    seq(|ds|, i requires 0 <= i < |ds| => ZERO + ds[i])
  }

  /** The number a digit string reads as. */
  function Reading(s: seq<byte>): nat
    requires AllDigits(s)
  {
    Value(10, DigitValues(s))
  }

  /** Number of digits of n, without leading zeros. */
  function Width(n: nat): (w: nat)
    ensures w > 0
  {
    if n < 10 then 1 else 1 + Width(n / 10)
  }

  lemma {:induction false} WidthSuffices(n: nat)
    ensures n < Pow(10, Width(n))
  {
    if n < 10 {
      assert Pow(10, 1) == 10 * Pow(10, 0);
    } else {
      WidthSuffices(n / 10);
    }
  }

  lemma {:induction false} WidthFits(n: nat, w: nat)
    requires w > 0 && n < Pow(10, w)
    ensures Width(n) <= w
  {
    assert Pow(10, 1) == 10 * Pow(10, 0);
    if n >= 10 {
      WidthFits(n / 10, w - 1);
    }
  }

  /** `{}` */
  function Printed(n: nat): (s: seq<byte>)
    ensures AllDigits(s) && |s| == Width(n)
  {
    DigitChars(Digits(10, n, Width(n)))
  }

  /** `{:0width$}`: zeros in front up to the width. */
  function PrintedPadded(n: nat, width: nat): (s: seq<byte>)
    ensures AllDigits(s)
  {
    var digits := Printed(n);
    if |digits| >= width then digits else seq(width - |digits|, _ => ZERO) + digits
  }

  /** `str::parse` for an unsigned type with the given maximum: an optional plus sign, then digits. */
  function ParseUnsigned(s: seq<byte>, max: nat): Option<nat> {
    var digits := if |s| > 0 && s[0] == '+' as int then s[1..] else s;
    if |digits| > 0 && AllDigits(digits) && Reading(digits) <= max then Some(Reading(digits)) else None
  }

  lemma PrintedReads(n: nat)
    ensures Reading(Printed(n)) == n
  {
    WidthSuffices(n);
    ValueOfDigits(10, n, Width(n));
  }

  /** Parsing inverts printing. */
  lemma ParsePrinted(n: nat, max: nat)
    requires n <= max
    ensures ParseUnsigned(Printed(n), max) == Some(n)
  {
    hide Width, Digits, Value;
    PrintedReads(n);
  }

  /** The padded form is exactly the `width` low decimal digits. */
  lemma PaddedIsDigits(n: nat, width: nat)
    requires width > 0 && n < Pow(10, width)
    ensures PrintedPadded(n, width) == DigitChars(Digits(10, n, width))
  {
    hide Digits, Width, Value, Pow;
    var w := Width(n);
    WidthFits(n, width);
    WidthSuffices(n);
    var s, t := PrintedPadded(n, width), DigitChars(Digits(10, n, width));
    var zeros := seq(width - w, _ => ZERO);
    assert s == zeros + Printed(n);
    assert DigitValues(s) == Zeros(width - w) + Digits(10, n, w);
    LeadingZeros(10, width - w, Digits(10, n, w));
    ValueOfDigits(10, n, w);
    ValueOfDigits(10, n, width);
    ValueInjective(10, DigitValues(s), Digits(10, n, width));
    SameValuesSameString(s, t);
  }

  lemma SameValuesSameString(s: seq<byte>, t: seq<byte>)
    requires AllDigits(s) && AllDigits(t) && DigitValues(s) == DigitValues(t)
    ensures s == t
  {
    assert |s| == |DigitValues(s)| == |t|;
    forall i | 0 <= i < |s|
      ensures s[i] == t[i]
    {
      assert DigitValues(s)[i] == DigitValues(t)[i];
    }
  }

  /** The padded form has exactly `width` digits and reads back as the number. */
  lemma PaddedReads(n: nat, width: nat)
    requires width > 0 && n < Pow(10, width)
    ensures |PrintedPadded(n, width)| == width && Reading(PrintedPadded(n, width)) == n
  {
    hide PrintedPadded;
    PaddedIsDigits(n, width);
    ValueOfDigits(10, n, width);
  }

  /** What is accepted: digits, at least one, with a plus sign in front or not, denoting at most the
      type's maximum. Leading zeros do no harm. */
  lemma ParseIff(s: seq<byte>, max: nat, n: nat)
    ensures ParseUnsigned(s, max) == Some(n)
       <==> exists digits :: (s == digits || s == ['+' as int] + digits) && Denotes(digits, n) && n <= max
  {
    hide Reading;
    if digits :| (s == digits || s == ['+' as int] + digits) && Denotes(digits, n) && n <= max {
      assert s != digits ==> s[1..] == digits;
      assert IsDigit(digits[0]);
    }
    if ParseUnsigned(s, max) == Some(n) {
      var digits := if s[0] == '+' as int then s[1..] else s;
      assert Denotes(digits, n);
      assert s == digits || s == ['+' as int] + digits;
    }
  }

  /** A nonempty row of decimal digits with this value. */
  predicate Denotes(digits: seq<byte>, n: nat) {
    |digits| > 0 && AllDigits(digits) && Reading(digits) == n
  }
}
