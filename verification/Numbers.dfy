/** Machine integers as bounded mathematical integers, bitwise "or" on naturals, and one theory of
    positional notation shared by base 32, base 256, machine limbs and decimal printing. */
module Numbers {
  type byte = x: int | 0 <= x < 0x100 witness 0
  type u16 = x: int | 0 <= x < 0x1_0000 witness 0
  type u32 = x: int | 0 <= x < 0x1_0000_0000 witness 0
  type i32 = x: int | -0x8000_0000 <= x < 0x8000_0000 witness 0
  type u64 = x: int | 0 <= x < 0x1_0000_0000_0000_0000 witness 0

  // ----- products -----

  lemma MulAssoc(a: int, b: int, c: int)
    ensures (a * b) * c == a * (b * c)
  {
  }

  lemma MulDist(a: int, b: int, c: int)
    ensures (a + b) * c == a * c + b * c
  {
  }

  // ----- powers -----

  function Pow(b: nat, e: nat): nat {
    if e == 0 then 1 else b * Pow(b, e - 1)
  }

  lemma {:induction false} PowPositive(b: nat, e: nat)
    requires b > 0
    ensures Pow(b, e) > 0
  {
    if e > 0 {
      PowPositive(b, e - 1);
    }
  }

  lemma {:induction false} PowAdd(b: nat, e: nat, f: nat)
    ensures Pow(b, e + f) == Pow(b, e) * Pow(b, f)
  {
    if e > 0 {
      PowAdd(b, e - 1, f);
      assert e + f - 1 == e - 1 + f;
      MulAssoc(b, Pow(b, e - 1), Pow(b, f));
    }
  }

  /** (b^k)^e == b^(k*e) */
  lemma {:induction false} PowPow(b: nat, k: nat, e: nat)
    ensures Pow(Pow(b, k), e) == Pow(b, k * e)
  {
    if e > 0 {
      PowPow(b, k, e - 1);
      assert k * e == k + k * (e - 1);
      PowAdd(b, k, k * (e - 1));
    } else {
      assert k * e == 0;
    }
  }

  lemma SmallPowersOfTwo()
    ensures Pow(2, 4) == 0x10 && Pow(2, 5) == 0x20 && Pow(2, 8) == 0x100 && Pow(2, 16) == 0x1_0000
  {
    assert Pow(2, 2) == 4;
    PowAdd(2, 2, 2);
    assert Pow(2, 5) == 2 * Pow(2, 4);
    PowAdd(2, 4, 4);
    PowAdd(2, 8, 8);
  }

  // ----- division facts the proofs below need -----

  lemma AtLeastOneTimes(x: int, d: int)
    requires x >= 1 && d >= 0
    ensures x * d >= d
  {
    assert x * d == d + (x - 1) * d;
  }

  lemma DivModBounds(a: nat, d: nat)
    requires d > 0
    ensures 0 <= a / d <= a && 0 <= a % d < d && a == (a / d) * d + a % d
  {
    if a / d > 0 {
      AtLeastOneTimes(d, a / d);
    }
  }

  lemma DivUnique(a: int, d: int, q: int, r: int)
    requires d > 0 && 0 <= r < d && a == q * d + r
    ensures a / d == q && a % d == r
  {
    var q', r' := a / d, a % d;
    var diff := q' - q;
    assert diff * d == r - r' by {
      assert a == q' * d + r';
      assert diff * d == q' * d - q * d;
    }
    assert (-diff) * d == -(diff * d);
    if diff >= 1 {
      AtLeastOneTimes(diff, d);
      assert false;
    } else if diff <= -1 {
      AtLeastOneTimes(-diff, d);
      assert false;
    }
  }

  /** Dividing twice is dividing by the product. */
  lemma DivDiv(a: nat, d: nat, e: nat)
    requires d > 0 && e > 0
    ensures d * e > 0 && a / (d * e) == a / d / e
  {
    var q := a / d / e;
    var r1 := a % d;
    var r2 := (a / d) % e;
    assert a / d == q * e + r2;
    calc {
      a;
      (a / d) * d + r1;
      (q * e + r2) * d + r1;
      { assert (q * e + r2) * d == q * (d * e) + r2 * d; }
      q * (d * e) + (r2 * d + r1);
    }
    assert r2 * d + r1 < d * e by {
      assert r2 * d <= (e - 1) * d;
      assert (e - 1) * d == d * e - d;
    }
    assert 0 <= r2 * d + r1;
    assert d * e > 0;
    DivUnique(a, d * e, q, r2 * d + r1);
  }

  // ----- bitwise or -----

  /** The machine's `|` on nonnegative integers, bit by bit. */
  function BitOr(a: nat, b: nat): nat
    decreases a + b
  {
    if a == 0 && b == 0 then 0
    else 2 * BitOr(a / 2, b / 2) + (if a % 2 == 1 || b % 2 == 1 then 1 else 0)
  }

  /** Bit k of a number. */
  predicate Bit(n: nat, k: nat) {
    if k == 0 then n % 2 == 1 else Bit(n / 2, k - 1)
  }

  /** A bit of the result is set exactly if it is set on either side. */
  lemma {:induction false} BitOrBits(a: nat, b: nat, k: nat)
    ensures Bit(BitOr(a, b), k) <==> Bit(a, k) || Bit(b, k)
    decreases k
  {
    assert BitOr(a, b) / 2 == BitOr(a / 2, b / 2);
    if k > 0 {
      BitOrBits(a / 2, b / 2, k - 1);
    }
  }

  lemma {:induction false} BitOrZero(b: nat)
    ensures BitOr(0, b) == b
  {
    if b > 0 {
      BitOrZero(b / 2);
    }
  }

  /** Or-ing a k-bit value below a value shifted left by k bits is addition. */
  lemma {:induction false} BitOrShifted(a: nat, k: nat, b: nat)
    requires b < Pow(2, k)
    ensures BitOr(a * Pow(2, k), b) == a * Pow(2, k) + b
    decreases k
  {
    var p := a * Pow(2, k);
    if k == 0 {
      assert p == a;
      BitOrSymmetric(a, 0);
      BitOrZero(a);
    } else if p == 0 && b == 0 {
    } else {
      var p' := a * Pow(2, k - 1);
      assert p == 2 * p' by {
        assert Pow(2, k) == 2 * Pow(2, k - 1);
      }
      BitOrShifted(a, k - 1, b / 2);
    }
  }

  lemma {:induction false} BitOrSymmetric(a: nat, b: nat)
    ensures BitOr(a, b) == BitOr(b, a)
    decreases a + b
  {
    if a != 0 || b != 0 {
      BitOrSymmetric(a / 2, b / 2);
    }
  }

  // ----- positional notation, most significant digit first -----

  ghost predicate AllBelow(base: nat, ds: seq<nat>) {
    forall i :: 0 <= i < |ds| ==> ds[i] < base
  }

  /** The number a digit sequence denotes. */
  function Value(base: nat, ds: seq<nat>): nat {
    if |ds| == 0 then 0 else Value(base, ds[..|ds| - 1]) * base + ds[|ds| - 1]
  }

  /** The `len` least significant digits of n. */
  function Digits(base: nat, n: nat, len: nat): (ds: seq<nat>)
    requires base > 0
    ensures |ds| == len
    ensures forall i :: 0 <= i < |ds| ==> ds[i] < base
  {
    DivModBounds(n, base);
    if len == 0 then [] else Digits(base, n / base, len - 1) + [n % base]
  }

  lemma {:induction false} ValueBound(base: nat, ds: seq<nat>)
    requires AllBelow(base, ds)
    ensures Value(base, ds) < Pow(base, |ds|)
    decreases |ds|
  {
    if |ds| > 0 {
      var front := ds[..|ds| - 1];
      ValueBound(base, front);
      HornerBound(Value(base, front), Pow(base, |ds| - 1), base, ds[|ds| - 1]);
    }
  }

  lemma HornerBound(v: nat, p: nat, base: nat, d: nat)
    requires v < p && d < base
    ensures v * base + d < base * p
  {
    AtLeastOneTimes(p - v, base);
    MulDist(p - v, v, base);
  }

  /** Reading the digits of a number that fits gives the number back. */
  lemma {:induction false} ValueOfDigits(base: nat, n: nat, len: nat)
    requires base > 0 && n < Pow(base, len)
    ensures Value(base, Digits(base, n, len)) == n
    decreases len
  {
    if len > 0 {
      DivModBounds(n, base);
      var ds := Digits(base, n, len);
      assert ds[..len - 1] == Digits(base, n / base, len - 1);
      QuotientBound(base, n, len);
      ValueOfDigits(base, n / base, len - 1);
    }
  }

  lemma QuotientBound(base: nat, n: nat, len: nat)
    requires base > 0 && len > 0 && n < Pow(base, len)
    ensures n / base < Pow(base, len - 1)
  {
    DivModBounds(n, base);
    var q, p := n / base, Pow(base, len - 1);
    assert q * base == p * base + (q - p) * base;
  }

  /** Printing the value of a digit sequence at its own length gives the sequence back. */
  lemma {:induction false} DigitsOfValue(base: nat, ds: seq<nat>)
    requires base > 0 && AllBelow(base, ds)
    ensures Digits(base, Value(base, ds), |ds|) == ds
    decreases |ds|
  {
    if |ds| > 0 {
      var front := ds[..|ds| - 1];
      var last := ds[|ds| - 1];
      DivUnique(Value(base, ds), base, Value(base, front), last);
      DigitsOfValue(base, front);
      assert ds == front + [last];
    }
  }

  /** Two digit sequences of one length that denote one number are equal. */
  lemma ValueInjective(base: nat, a: seq<nat>, b: seq<nat>)
    requires base > 0 && AllBelow(base, a) && AllBelow(base, b)
    requires |a| == |b| && Value(base, a) == Value(base, b)
    ensures a == b
  {
    DigitsOfValue(base, a);
    DigitsOfValue(base, b);
  }

  lemma {:induction false} ValueConcat(base: nat, a: seq<nat>, b: seq<nat>)
    ensures Value(base, a + b) == Value(base, a) * Pow(base, |b|) + Value(base, b)
    decreases |b|
  {
    if |b| == 0 {
      assert a + b == a;
    } else {
      var front := b[..|b| - 1];
      assert (a + b)[..|a + b| - 1] == a + front;
      ValueConcat(base, a, front);
      var p := Pow(base, |b| - 1);
      ValueConcatStep(Value(base, a), p, Value(base, front), base);
    }
  }

  lemma ValueConcatStep(x: int, p: int, y: int, base: int)
    ensures (x * p + y) * base == x * (base * p) + y * base
  {
    MulDist(x * p, y, base);
    MulAssoc(x, p, base);
  }

  function Zeros(n: nat): (zs: seq<byte>)
    ensures |zs| == n && forall i :: 0 <= i < n ==> zs[i] == 0
  {
    seq(n, _ => 0)
  }

  lemma {:induction false} ValueOfZeros(base: nat, n: nat)
    ensures Value(base, Zeros(n)) == 0
  {
    if n > 0 {
      assert Zeros(n)[..n - 1] == Zeros(n - 1);
      ValueOfZeros(base, n - 1);
    }
  }

  /** Leading zeros do not change a value. */
  lemma LeadingZeros(base: nat, n: nat, ds: seq<nat>)
    ensures Value(base, Zeros(n) + ds) == Value(base, ds)
  {
    ValueConcat(base, Zeros(n), ds);
    ValueOfZeros(base, n);
  }

  /** A digit string cut after its first `len` digits, read as a shorter string of low digits: the
      low `k` digits of n are the last `k` of its low `len` digits. */
  lemma {:induction false} DigitsSuffix(base: nat, n: nat, len: nat, k: nat)
    requires base > 0 && k <= len
    ensures Digits(base, n, len)[len - k..] == Digits(base, n, k)
    decreases k
  {
    if k > 0 {
      DivModBounds(n, base);
      DigitsSuffix(base, n / base, len - 1, k - 1);
      var ds := Digits(base, n, len);
      assert ds[len - k..] == Digits(base, n / base, len - 1)[len - k..] + [n % base];
    }
  }
}
