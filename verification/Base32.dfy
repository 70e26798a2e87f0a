/** The base 32 decoder of one-true-pairing/src/totp.rs:220-296, and the encoder of section 6 of
    RFC 4648 without padding, which it inverts. */
module Base32 {
  import opened Numbers
  import opened Outcomes

  predicate IsBase32(b: byte) {
    'A' as int <= b <= 'Z' as int || 'a' as int <= b <= 'z' as int || '2' as int <= b <= '7' as int
  }

  predicate AllBase32(s: seq<byte>) {
    forall i :: 0 <= i < |s| ==> IsBase32(s[i])
  }

  /** The five bits a character stands for. */
  function CharValue(b: byte): (v: nat)
    requires IsBase32(b)
    ensures v < 32
  {
    if 'A' as int <= b <= 'Z' as int then b - 'A' as int
    else if 'a' as int <= b <= 'z' as int then b - 'a' as int
    else b - '2' as int + 26
  }

  function CharValues(s: seq<byte>): (vs: seq<nat>)
    requires AllBase32(s)
    ensures |vs| == |s| && AllBelow(32, vs)
  {
    seq(|s|, i requires 0 <= i < |s| => CharValue(s[i]))
  }

  /** Lengths that no whole number of bytes encodes to. */
  predicate BadLength(n: nat) {
    n % 8 == 1 || n % 8 == 3 || n % 8 == 6
  }

  function ShiftRight(v: nat, k: nat): nat {
    PowPositive(2, k);
    DivModBounds(v, Pow(2, k));
    v / Pow(2, k)
  }

  /** Whole bytes in n groups of five bits, and the bits beyond them. */
  function WholeBytes(n: nat): nat {
    5 * n / 8
  }

  function ExcessBits(n: nat): (k: nat)
    ensures k < 8
  {
    5 * n % 8
  }

  /** The number that n characters with value v stand for once the 5n mod 8 excess bits are cut off. */
  function Cut(v: nat, n: nat): nat {
    ShiftRight(v, ExcessBits(n))
  }

  /** What decoding means: read all characters as one number in base 32, cut off the excess bits, and
      write what is left as whole bytes. */
  function Decoded(s: seq<byte>): Option<seq<byte>> {
    if !AllBase32(s) || BadLength(|s|) then None
    else Some(Digits(0x100, Cut(Value(32, CharValues(s)), |s|), WholeBytes(|s|)))
  }

  // ----- shifts -----

  lemma ShiftTwice(v: nat, k: nat, l: nat)
    ensures ShiftRight(ShiftRight(v, k), l) == ShiftRight(v, k + l)
  {
    PowPositive(2, k);
    PowPositive(2, l);
    PowAdd(2, k, l);
    DivDiv(v, Pow(2, k), Pow(2, l));
  }

  /** The last n bytes above the lowest `cut` bits, by shifting. */
  function ShiftedBytes(v: nat, cut: nat, n: nat): (bs: seq<byte>)
    ensures |bs| == n
  {
    seq(n, j requires 0 <= j < n => ShiftRight(v, 8 * (n - 1 - j) + cut) % 0x100)
  }

  lemma {:induction false} ShiftedBytesAreDigits(v: nat, cut: nat, n: nat)
    ensures ShiftedBytes(v, cut, n) == Digits(0x100, ShiftRight(v, cut), n)
    decreases n
  {
    hide ShiftRight;
    if n > 0 {
      ShiftedBytesAreDigits(v, cut + 8, n - 1);
      ShiftTwice(v, cut, 8);
      ShiftByEight(ShiftRight(v, cut));
      var bs := ShiftedBytes(v, cut, n);
      assert bs[..n - 1] == ShiftedBytes(v, cut + 8, n - 1);
      assert bs == bs[..n - 1] + [bs[n - 1]];
    }
  }

  lemma ShiftByEight(v: nat)
    ensures ShiftRight(v, 8) == v / 0x100
  {
    SmallPowersOfTwo();
  }

  // ----- one more chunk -----

  /** 32^k is 2^(5k mod 8) times 256^(5k div 8). */
  lemma Power32(k: nat)
    ensures Pow(32, k) == Pow(0x100, WholeBytes(k)) * Pow(2, ExcessBits(k))
  {
    var j, cut := WholeBytes(k), ExcessBits(k);
    SmallPowersOfTwo();
    PowPow(2, 5, k);
    PowPow(2, 8, j);
    assert 5 * k == 8 * j + cut;
    PowAdd(2, 8 * j, cut);
  }

  lemma {:induction false} DigitsConcat(base: nat, a: nat, m: nat, b: nat, n: nat)
    requires base > 0 && b < Pow(base, n)
    ensures Digits(base, a * Pow(base, n) + b, m + n) == Digits(base, a, m) + Digits(base, b, n)
    decreases n
  {
    if n == 0 {
      assert a * Pow(base, 0) + b == a;
    } else {
      var whole := a * Pow(base, n) + b;
      DivModBounds(b, base);
      QuotientBound(base, b, n);
      DigitsConcatStep(base, a, Pow(base, n - 1), b);
      assert Pow(base, n) == base * Pow(base, n - 1);
      DigitsConcat(base, a, m, b / base, n - 1);
    }
  }

  lemma DigitsConcatStep(base: nat, a: nat, p: nat, b: nat)
    requires base > 0
    ensures (a * (base * p) + b) / base == a * p + b / base
    ensures (a * (base * p) + b) % base == b % base
  {
    DivModBounds(b, base);
    MulAssoc(a, p, base);
    MulDist(a * p, b / base, base);
    DivUnique(a * (base * p) + b, base, a * p + b / base, b % base);
  }

  lemma CutChunk(f: nat, p: nat, q: nat, c: nat)
    requires q > 0
    ensures (f * (p * q) + c) / q == f * p + c / q
  {
    DivModBounds(c, q);
    MulAssoc(f, p, q);
    MulDist(f * p, c / q, q);
    DivUnique(f * (p * q) + c, q, f * p + c / q, c % q);
  }

  lemma CutBound(c: nat, k: nat)
    requires c < Pow(32, k)
    ensures Cut(c, k) < Pow(0x100, WholeBytes(k))
  {
    var p, q := Pow(0x100, WholeBytes(k)), Pow(2, ExcessBits(k));
    PowPositive(2, ExcessBits(k));
    Power32(k);
    DivModBounds(c, q);
    if c / q >= p {
      MulMonotone(p, c / q, q);
    }
  }

  lemma MulMonotone(a: nat, b: nat, c: nat)
    requires a <= b
    ensures a * c <= b * c
  {
    MulDist(a, b - a, c);
  }

  lemma EightsDropOut(n: nat, k: nat)
    requires n % 8 == 0
    ensures ExcessBits(n + k) == ExcessBits(k)
    ensures WholeBytes(n + k) == WholeBytes(n) + WholeBytes(k)
    ensures BadLength(n + k) == BadLength(k) && !BadLength(n)
  {
    var t := n / 8;
    assert n == 8 * t;
    EightTimes(5 * t, 5 * k);
    EightTimes(t, k);
  }

  lemma EightTimes(t: nat, r: nat)
    ensures (8 * t + r) % 8 == r % 8 && (8 * t + r) / 8 == t + r / 8
  {
  }

  lemma ShiftIsDiv(v: nat, k: nat)
    ensures Pow(2, k) > 0 && ShiftRight(v, k) == v / Pow(2, k)
  {
    PowPositive(2, k);
  }

  /** A number in base 32 with k more characters appended. */
  function Joined(f: nat, c: nat, k: nat): nat {
    f * Pow(32, k) + c
  }

  lemma CutOfWhole(f: nat, c: nat, n: nat, k: nat)
    requires n % 8 == 0 && c < Pow(32, k)
    ensures Cut(Joined(f, c, k), n + k) == f * Pow(0x100, WholeBytes(k)) + Cut(c, k)
  {
    hide Pow, ShiftRight;
    Power32(k);
    EightsDropOut(n, k);
    var p, q := Pow(0x100, WholeBytes(k)), Pow(2, ExcessBits(k));
    ShiftIsDiv(c, ExcessBits(k));
    ShiftIsDiv(f * (p * q) + c, ExcessBits(k));
    CutChunk(f, p, q, c);
  }

  lemma CutNothing(f: nat, n: nat)
    requires n % 8 == 0
    ensures Cut(f, n) == f
  {
    EightsDropOut(n, 0);
    ShiftIsDiv(f, 0);
    assert Pow(2, 0) == 1;
  }

  lemma DigitsOfWhole(f: nat, c: nat, n: nat, k: nat)
    requires n % 8 == 0 && c < Pow(32, k)
    ensures Digits(0x100, Cut(Joined(f, c, k), n + k), WholeBytes(n + k))
         == Digits(0x100, f, WholeBytes(n)) + Digits(0x100, Cut(c, k), WholeBytes(k))
  {
    hide Cut, Digits, Pow, Joined, WholeBytes, ExcessBits;
    EightsDropOut(n, k);
    CutOfWhole(f, c, n, k);
    CutBound(c, k);
    DigitsConcat(0x100, f, WholeBytes(n), Cut(c, k), WholeBytes(k));
  }

  lemma ValueOfBoth(a: seq<nat>, b: seq<nat>)
    ensures Value(32, a + b) == Joined(Value(32, a), Value(32, b), |b|)
  {
    ValueConcat(32, a, b);
  }

  /** Whole groups of eight characters decode independently of what follows. */
  lemma DecodedAppend(front: seq<byte>, chunk: seq<byte>)
    requires |front| % 8 == 0 && AllBase32(front) && AllBase32(chunk) && !BadLength(|chunk|)
    ensures Decoded(front).Some?
    ensures Decoded(front + chunk)
         == Some(Decoded(front).value + Digits(0x100, Cut(Value(32, CharValues(chunk)), |chunk|), WholeBytes(|chunk|)))
  {
    hide Cut, Digits, Value, Pow, BadLength, CharValues, Joined, WholeBytes, ExcessBits;
    CharValuesConcat(front, chunk);
    EightsDropOut(|front|, |chunk|);
    ValueOfBoth(CharValues(front), CharValues(chunk));
    ValueBound(32, CharValues(chunk));
    DigitsOfWhole(Value(32, CharValues(front)), Value(32, CharValues(chunk)), |front|, |chunk|);
    CutNothing(Value(32, CharValues(front)), |front|);
  }

  lemma CharValuesConcat(a: seq<byte>, b: seq<byte>)
    requires AllBase32(a) && AllBase32(b)
    ensures AllBase32(a + b) && CharValues(a + b) == CharValues(a) + CharValues(b)
  {
  }

  // ----- the decoder's loops -----

  /** The inner loop: shift in five bits per character. */
  method ChunkValue(chunk: seq<byte>) returns (value: u64)
    requires AllBase32(chunk) && |chunk| <= 8
    ensures value == Value(32, CharValues(chunk))
  {
    hide BitOr, Pow;
    value := 0;
    assert Pow(32, 0) == 1 by {
      PowZero(32);
    }
    for k := 0 to |chunk|
      invariant value == Value(32, CharValues(chunk[..k])) < Pow(32, k) <= 0x100_0000_0000
    {
      var b := chunk[k];
      assert CharValues(chunk[..k + 1])[..k] == CharValues(chunk[..k]);
      ValueBound(32, CharValues(chunk[..k + 1]));
      FortyBits(k + 1);
      ShiftInFive(value, k, CharValue(b));
      value := value * 0x20 % 0x1_0000_0000_0000_0000;
      if 'A' as int <= b <= 'Z' as int {
        value := BitOr(value, b - 'A' as int);
      } else if 'a' as int <= b <= 'z' as int {
        value := BitOr(value, b - 'a' as int);
      } else {
        assert '2' as int <= b <= '7' as int;
        value := BitOr(value, b - '2' as int + 26);
      }
    }
    assert chunk[..|chunk|] == chunk;
  }

  lemma PowZero(b: nat)
    ensures Pow(b, 0) == 1
  {
  }

  lemma FortyBits(k: nat)
    requires k <= 8
    ensures Pow(32, k) <= 0x100_0000_0000
  {
    assert Pow(32, 4) == 0x10_0000;
    PowAdd(32, 4, 4);
    PowAdd(32, k, 8 - k);
    PowPositive(32, k);
    PowPositive(32, 8 - k);
    MulMonotone(1, Pow(32, 8 - k), Pow(32, k));
  }

  lemma ShiftInFive(value: nat, k: nat, digit: nat)
    requires k < 8 && value < Pow(32, k) && digit < 32
    ensures value * 0x20 % 0x1_0000_0000_0000_0000 == value * 0x20
    ensures BitOr(value * 0x20, digit) == value * 0x20 + digit
  {
    FortyBits(k);
    SmallPowersOfTwo();
    BitOrShifted(value, 5, digit);
  }

  /** The bytes pushed for a chunk, by its length; none for the lengths that cannot occur. */
  method ChunkBytes(value: u64, length: nat) returns (r: Option<seq<byte>>)
    requires 0 < length <= 8
    ensures r == if BadLength(length) then None else Some(ShiftedBytes(value, ExcessBits(length), WholeBytes(length)))
  {
    hide ShiftRight;
    match length
    case 1 => return None;
    case 2 =>
      r := Some([ShiftRight(value, 0 + 2) % 0x100]);
      assert r.value == ShiftedBytes(value, 2, 1);
    case 3 => return None;
    case 4 =>
      r := Some([ShiftRight(value, 8 + 4) % 0x100, ShiftRight(value, 0 + 4) % 0x100]);
      assert r.value == ShiftedBytes(value, 4, 2);
    case 5 =>
      r := Some([ShiftRight(value, 16 + 1) % 0x100, ShiftRight(value, 8 + 1) % 0x100,
                 ShiftRight(value, 0 + 1) % 0x100]);
      assert r.value == ShiftedBytes(value, 1, 3);
    case 6 => return None;
    case 7 =>
      r := Some([ShiftRight(value, 24 + 3) % 0x100, ShiftRight(value, 16 + 3) % 0x100,
                 ShiftRight(value, 8 + 3) % 0x100, ShiftRight(value, 0 + 3) % 0x100]);
      assert r.value == ShiftedBytes(value, 3, 4);
    case _ =>
      r := Some([ShiftRight(value, 32 + 0) % 0x100, ShiftRight(value, 24 + 0) % 0x100,
                 ShiftRight(value, 16 + 0) % 0x100, ShiftRight(value, 8 + 0) % 0x100,
                 ShiftRight(value, 0 + 0) % 0x100]);
      assert r.value == ShiftedBytes(value, 0, 5);
  }

  method DecodeBase32(b32: seq<byte>) returns (r: Option<seq<byte>>)
    ensures r == Decoded(b32)
    ensures r.Some? <==> AllBase32(b32) && !BadLength(|b32|)
  {
    hide Cut, Digits, Value, ShiftRight, WholeBytes, ExcessBits, CharValues, BadLength, ShiftedBytes;
    var ret: seq<byte> := [];
    for i := 0 to |b32|
      invariant AllBase32(b32[..i])
    {
      if !IsBase32(b32[i]) {
        return None;
      }
    }
    assert b32[..|b32|] == b32;
    var pos := 0;
    NothingDecoded();
    while pos < |b32|
      invariant pos <= |b32| && (pos % 8 == 0 || pos == |b32|)
      invariant Decoded(b32[..pos]) == Some(ret)
    {
      var end := if pos + 8 <= |b32| then pos + 8 else |b32|;
      var chunk := b32[pos..end];
      var value := ChunkValue(chunk);
      var bytes := ChunkBytes(value, |chunk|);
      EightsDropOut(pos, |chunk|);
      if bytes.None? {
        FullChunkIsGood(|chunk|);
        return None;
      }
      assert b32[..pos] + chunk == b32[..end];
      DecodedAppend(b32[..pos], chunk);
      ShiftedBytesAreDigits(value, ExcessBits(|chunk|), WholeBytes(|chunk|));
      assert Cut(value, |chunk|) == ShiftRight(value, ExcessBits(|chunk|)) by {
        CutIsShift(value, |chunk|);
      }
      ret := ret + bytes.value;
      pos := end;
    }
    assert b32[..pos] == b32;
    return Some(ret);
  }

  lemma FullChunkIsGood(n: nat)
    requires BadLength(n)
    ensures n != 8
  {
  }

  lemma CutIsShift(v: nat, n: nat)
    ensures Cut(v, n) == ShiftRight(v, ExcessBits(n))
  {
  }

  lemma NothingDecoded()
    ensures Decoded([]) == Some([])
  {
  }

  // ----- the encoder -----

  /** The character for five bits. */
  function CharOf(v: nat): (b: byte)
    requires v < 32
    ensures IsBase32(b) && CharValue(b) == v
  {
    if v < 26 then 'A' as int + v else '2' as int + (v - 26)
  }

  const ALPHABET := "ABCDEFGHIJKLMNOPQRSTUVWXYZ234567"

  /** Characters stand for their positions in the alphabet of section 6 of RFC 4648. */
  lemma AlphabetTable(v: nat)
    requires v < 32
    ensures CharOf(v) == ALPHABET[v] as int
  {
  }

  /** Number of characters for m bytes: eight bits each, in groups of five, the last group filled up. */
  function EncodedLength(m: nat): nat {
    (8 * m + 4) / 5
  }

  /** All bits as one number, filled up with zero bits to a whole number of groups of five, group by
      group, without padding characters. */
  function Encoded(bytes: seq<byte>): (s: seq<byte>)
    ensures AllBase32(s) && |s| == EncodedLength(|bytes|)
  {
    var n := EncodedLength(|bytes|);
    var ds := Digits(32, Value(0x100, bytes) * Pow(2, 5 * n - 8 * |bytes|), n);
    seq(n, i requires 0 <= i < n => CharOf(ds[i]))
  }

  lemma EncodedLengthFits(m: nat)
    ensures var n := EncodedLength(m);
            0 <= 5 * n - 8 * m <= 4 && WholeBytes(n) == m && ExcessBits(n) == 5 * n - 8 * m && !BadLength(n)
  {
  }

  /** Decoding inverts encoding, for any number of bytes. */
  lemma DecodeEncode(bytes: seq<byte>)
    ensures Decoded(Encoded(bytes)) == Some(bytes)
  {
    hide Cut, Digits, Value, Pow, BadLength, EncodedLength;
    var n := EncodedLength(|bytes|);
    EncodedLengthFits(|bytes|);
    EncodedValue(bytes);
    CutFilledUp(Value(0x100, bytes), n, 5 * n - 8 * |bytes|);
    DigitsOfValue(0x100, bytes);
  }

  lemma FilledUpFits(v: nat, m: nat, n: nat, pad: nat)
    requires v < Pow(0x100, m) && 5 * n == 8 * m + pad && pad < 8
    ensures v * Pow(2, pad) < Pow(32, n)
  {
    Power32(n);
    assert WholeBytes(n) == m && ExcessBits(n) == pad;
    PowPositive(2, pad);
    AtLeastOneTimes(Pow(0x100, m) - v, Pow(2, pad));
    MulDist(Pow(0x100, m) - v, v, Pow(2, pad));
  }

  lemma CutFilledUp(v: nat, n: nat, pad: nat)
    requires ExcessBits(n) == pad
    ensures Cut(v * Pow(2, pad), n) == v
  {
    PowPositive(2, pad);
    DivUnique(v * Pow(2, pad), Pow(2, pad), v, 0);
  }

  /** Two characters that differ at most in case. */
  predicate SameLetter(a: byte, b: byte) {
    || a == b
    || ('a' as int <= a <= 'z' as int && b == a - 32)
    || ('A' as int <= a <= 'Z' as int && b == a + 32)
  }

  /** The decoder ignores case. */
  lemma IgnoresCase(s: seq<byte>, t: seq<byte>)
    requires |s| == |t| && forall i :: 0 <= i < |s| ==> SameLetter(s[i], t[i])
    ensures Decoded(s) == Decoded(t)
  {
    hide Cut, Digits, Value;
    forall i | 0 <= i < |s|
      ensures IsBase32(s[i]) <==> IsBase32(t[i])
      ensures IsBase32(s[i]) ==> CharValue(s[i]) == CharValue(t[i])
    {
      assert SameLetter(s[i], t[i]);
    }
    if AllBase32(s) {
      assert CharValues(s) == CharValues(t);
    }
  }

  /** What was decoded, encoded again, is the text in upper case with the cut-off bits cleared: equal
      numbers up to those bits. */
  lemma EncodeDecode(s: seq<byte>)
    requires Decoded(s).Some?
    ensures var cut := Pow(2, ExcessBits(|s|));
            var v := Value(32, CharValues(s));
            && cut > 0 && |Encoded(Decoded(s).value)| == |s|
            && Value(32, CharValues(Encoded(Decoded(s).value))) == v - v % cut
  {
    hide Cut, Digits, Value, Pow, Encoded, BadLength, EncodedLength;
    var n, m := |s|, WholeBytes(|s|);
    var pad, v := ExcessBits(n), Value(32, CharValues(s));
    var bytes := Decoded(s).value;
    LengthBack(n);
    ValueBound(32, CharValues(s));
    CutBound(v, n);
    ValueOfDigits(0x100, Cut(v, n), m);
    FilledUpFits(Cut(v, n), m, n, pad);
    EncodedValue(bytes);
    CutTimes(v, n);
  }

  lemma LengthBack(n: nat)
    requires !BadLength(n)
    ensures EncodedLength(WholeBytes(n)) == n && 5 * n - 8 * WholeBytes(n) == ExcessBits(n)
  {
    var q, r := n / 8, n % 8;
    EightTimes(5 * q, 5 * r);
    var w := 5 * r / 8;
    assert WholeBytes(n) == 5 * q + w;
    FiveTimes(8 * q, 8 * w + 4);
  }

  lemma FiveTimes(t: nat, r: nat)
    ensures (5 * t + r) / 5 == t + r / 5
  {
  }

  lemma EncodedValue(bytes: seq<byte>)
    ensures var n := EncodedLength(|bytes|);
            5 * n >= 8 * |bytes| &&
            Value(32, CharValues(Encoded(bytes))) == Value(0x100, bytes) * Pow(2, 5 * n - 8 * |bytes|)
  {
    hide Digits, Value, Pow, EncodedLength;
    var n := EncodedLength(|bytes|);
    EncodedLengthFits(|bytes|);
    ValueBound(0x100, bytes);
    FilledUpValue(Value(0x100, bytes), |bytes|, n);
    EncodedGroups(bytes);
  }

  lemma EncodedGroups(bytes: seq<byte>)
    ensures var n := EncodedLength(|bytes|);
            5 * n >= 8 * |bytes| &&
            CharValues(Encoded(bytes)) == Digits(32, Value(0x100, bytes) * Pow(2, 5 * n - 8 * |bytes|), n)
  {
    hide Digits, Value, Pow;
  }

  lemma FilledUpValue(v: nat, m: nat, n: nat)
    requires v < Pow(0x100, m) && 0 <= 5 * n - 8 * m < 8
    ensures Value(32, Digits(32, v * Pow(2, 5 * n - 8 * m), n)) == v * Pow(2, 5 * n - 8 * m)
  {
    hide Digits, Value, Pow;
    FilledUpFits(v, m, n, 5 * n - 8 * m);
    ValueOfDigits(32, v * Pow(2, 5 * n - 8 * m), n);
  }

  lemma CutTimes(v: nat, n: nat)
    ensures Pow(2, ExcessBits(n)) > 0
    ensures Cut(v, n) * Pow(2, ExcessBits(n)) == v - v % Pow(2, ExcessBits(n))
  {
    PowPositive(2, ExcessBits(n));
    DivModBounds(v, Pow(2, ExcessBits(n)));
  }
}
