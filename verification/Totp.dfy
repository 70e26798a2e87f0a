/** One-time codes: one-true-pairing/src/totp.rs:299-354 and the end of the menu's event handler,
    one-true-pairing/src/notifier/mod.rs:453-484. HMAC is a parameter. */
module Totp {
  import opened Numbers
  import opened Outcomes
  import opened Utf8
  import opened Decimal
  import opened OtpauthUrl
  import opened OtpauthRoundTrip

  datatype Algorithm = Sha1 | Sha256 | Sha512

  function DigestLength(a: Algorithm): nat {
    match a
    case Sha1 => 20
    case Sha256 => 32
    case Sha512 => 64
  }

  /** Keyed digest of a text under an algorithm. */
  type Hmac = (Algorithm, seq<byte>, seq<byte>) -> seq<byte>

  ghost predicate IsHmac(hmac: Hmac) {
    forall a: Algorithm, key: seq<byte>, text: seq<byte> :: |hmac(a, key, text)| == DigestLength(a)
  }

  /** `u64::to_be_bytes` */
  function BigEndian8(n: u64): (bs: seq<byte>)
    ensures |bs| == 8
  {
    Digits(0x100, n, 8)
  }

  /** The four bytes at the offset given by the last byte's low half, as one number without its top bit. */
  function Truncated(mac: seq<byte>): nat
    requires |mac| >= 20
  {
    var offset := mac[|mac| - 1] % 0x10;
    Value(0x100, mac[offset..offset + 4]) % 0x8000_0000
  }

  /** Four bytes, most significant first. */
  function Assembled(b3: int, b2: int, b1: int, b0: int): int {
    b3 * 0x100_0000 + b2 * 0x1_0000 + b1 * 0x100 + b0
  }

  /** Dynamic truncation as section 5.3 of RFC 4226 writes it: mask the first byte, then shift and add. */
  function RfcTruncated(mac: seq<byte>): nat
    requires |mac| >= 20
  {
    var offset := mac[|mac| - 1] % 0x10;
    Assembled(mac[offset] % 0x80, mac[offset + 1], mac[offset + 2], mac[offset + 3])
  }

  lemma ValueOfFour(b: seq<byte>)
    requires |b| == 4
    ensures Value(0x100, b) == Assembled(b[0], b[1], b[2], b[3])
  {
    var b3: int, b2: int, b1: int := b[0], b[1], b[2];
    assert b[..3][..2] == b[..2] && b[..2][..1] == b[..1] && b[..1][..0] == [];
    assert Value(0x100, b[..1]) == b3;
    assert Value(0x100, b[..2]) == b3 * 0x100 + b2;
    assert Value(0x100, b[..3]) == (b3 * 0x100 + b2) * 0x100 + b1;
  }

  /** Masking the assembled word is masking its first byte. */
  lemma TruncationIsRfc(mac: seq<byte>)
    requires |mac| >= 20
    ensures Truncated(mac) == RfcTruncated(mac)
  {
    hide Value;
    var offset := mac[|mac| - 1] % 0x10;
    var b := mac[offset..offset + 4];
    ValueOfFour(b);
    MaskTopBit(b[0], b[1], b[2], b[3]);
  }

  lemma MaskTopBit(b3: byte, b2: byte, b1: byte, b0: byte)
    ensures Assembled(b3, b2, b1, b0) % 0x8000_0000 == Assembled(b3 % 0x80, b2, b1, b0)
  {
    var top: int, low: int := b3 / 0x80, b3 % 0x80;
    assert Assembled(b3, b2, b1, b0) == top * 0x8000_0000 + Assembled(low, b2, b1, b0);
    DivUnique(Assembled(b3, b2, b1, b0), 0x8000_0000, top, Assembled(low, b2, b1, b0));
  }

  /** The code as a number. */
  function HotpValue(hmac: Hmac, a: Algorithm, secret: seq<byte>, counter: u64, digits: nat): (n: nat)
    requires |hmac(a, secret, BigEndian8(counter))| >= 20
    ensures n < Pow(10, digits)
  {
    PowPositive(10, digits);
    RfcTruncated(hmac(a, secret, BigEndian8(counter))) % Pow(10, digits)
  }

  lemma PowersOfTen()
    ensures Pow(10, 6) == 1_000_000 && Pow(10, 7) == 10_000_000 && Pow(10, 8) == 100_000_000
  {
    assert Pow(10, 3) == 10 * (10 * (10 * Pow(10, 0)));
    PowAdd(10, 3, 3);
    PowAdd(10, 6, 1);
    PowAdd(10, 6, 2);
    assert Pow(10, 1) == 10 && Pow(10, 2) == 100;
  }

  method Hotp(hmac: Hmac, a: Algorithm, sharedSecret: seq<byte>, counter: u64, digits: nat) returns (code: u32)
    requires IsHmac(hmac) && 6 <= digits <= 8
    ensures code == HotpValue(hmac, a, sharedSecret, counter, digits)
  {
    hide Value, Pow, Truncated, RfcTruncated;
    var mac := hmac(a, sharedSecret, BigEndian8(counter));
    assert |mac| == DigestLength(a);
    var offset := mac[|mac| - 1] % 0x10;
    var slice := mac[offset..offset + 4];
    var truncated := FromBigEndian(slice);
    truncated := truncated % 0x8000_0000;
    assert truncated == Truncated(mac) by {
      TruncatedIs(mac);
    }
    TruncationIsRfc(mac);
    PowersOfTen();
    match digits
    case 6 => code := truncated % 1_000_000;
    case 7 => code := truncated % 10_000_000;
    case _ => code := truncated % 100_000_000;
  }

  /** `u32::from_be_bytes` */
  function FromBigEndian(b: seq<byte>): u32
    requires |b| == 4
  {
    ValueOfFour(b);
    Value(0x100, b)
  }

  lemma TruncatedIs(mac: seq<byte>)
    requires |mac| >= 20
    ensures Truncated(mac) == FromBigEndian(mac[mac[|mac| - 1] % 0x10..mac[|mac| - 1] % 0x10 + 4]) % 0x8000_0000
  {
  }

  /** The number of whole periods since the epoch (section 4.2 of RFC 6238). */
  method TimeCode(hmac: Hmac, a: Algorithm, sharedSecret: seq<byte>, unixTime: u64, period: u64, digits: nat)
    returns (code: u32)
    requires IsHmac(hmac) && 6 <= digits <= 8 && period > 0
    ensures code == HotpValue(hmac, a, sharedSecret, unixTime / period, digits)
  {
    var counter := unixTime / period;
    code := Hotp(hmac, a, sharedSecret, counter, digits);
  }

  // ----- from URL to text -----

  const DEFAULT_DIGITS := 6
  const DEFAULT_PERIOD_SECONDS := 30

  function NamedAlgorithm(name: Option<Text>): Option<Algorithm> {
    if name == None || name == Some(Ascii("SHA1")) then Some(Sha1)
    else if name == Some(Ascii("SHA256")) then Some(Sha256)
    else if name == Some(Ascii("SHA512")) then Some(Sha512)
    else None
  }

  function DigitsOf(p: TotpParameters): nat {
    if p.digits.Some? then p.digits.value else DEFAULT_DIGITS
  }

  function PeriodOf(p: TotpParameters): nat {
    if p.periodSeconds.Some? then p.periodSeconds.value else DEFAULT_PERIOD_SECONDS
  }

  /** Defaults are in range too, so nothing after parsing can fail but an unknown algorithm name. */
  lemma DefaultsAreGood(p: TotpParameters)
    requires Representable(p)
    ensures 6 <= DigitsOf(p) <= 8 && 0 < PeriodOf(p) <= MAX_U64
    ensures p.digits.None? ==> DigitsOf(p) == 6
    ensures p.periodSeconds.None? ==> PeriodOf(p) == 30
  {
  }

  /** Whole periods since the epoch. */
  function Counter(p: TotpParameters, unixTime: u64): u64
    requires Representable(p)
  {
    DefaultsAreGood(p);
    DivModBounds(unixTime, PeriodOf(p));
    unixTime / PeriodOf(p)
  }

  /** The number the code of p is made from. */
  function CodeNumber(hmac: Hmac, p: TotpParameters, unixTime: u64): nat
    requires IsHmac(hmac) && Representable(p) && NamedAlgorithm(p.algorithm).Some?
  {
    HotpValue(hmac, NamedAlgorithm(p.algorithm).value, p.key, Counter(p, unixTime), DigitsOf(p))
  }

  // ----- what a code is, from the parsed record alone -----

  /** The algorithm that a name stands for; without a name it is SHA-1. */
  predicate Names(name: Option<Text>, a: Algorithm) {
    match a
    case Sha1 => name == None || name == Some(Ascii("SHA1"))
    case Sha256 => name == Some(Ascii("SHA256"))
    case Sha512 => name == Some(Ascii("SHA512"))
  }

  ghost predicate HasAlgorithm(p: TotpParameters) {
    exists a :: Names(p.algorithm, a)
  }

  /** The eight bytes, most significant first, that count the whole periods since the epoch. */
  predicate Counts(p: TotpParameters, unixTime: u64, message: seq<byte>) {
    && |message| == 8
    && match p.periodSeconds
       case None => Value(0x100, message) == unixTime / 30
       case Some(n) => n > 0 && Value(0x100, message) == unixTime / n
  }

  /** The text has the wanted number of digits, six if none is wanted, and reads as the truncated digest
      of these bytes modulo that power of ten. */
  ghost predicate IsCodeFrom(hmac: Hmac, p: TotpParameters, a: Algorithm, message: seq<byte>, text: Text) {
    var mac := hmac(a, p.key, message);
    && |text| == (match p.digits case None => 6 case Some(d) => d)
    && AllDigits(text) && |mac| >= 20 && Pow(10, |text|) > 0
    && Reading(text) == RfcTruncated(mac) % Pow(10, |text|)
  }

  ghost predicate IsCode(hmac: Hmac, p: TotpParameters, unixTime: u64, text: Text) {
    exists a, message :: Names(p.algorithm, a) && Counts(p, unixTime, message) && IsCodeFrom(hmac, p, a, message, text)
  }

  lemma NamedAlgorithmIff(name: Option<Text>, a: Algorithm)
    ensures NamedAlgorithm(name) == Some(a) <==> Names(name, a)
  {
    assert |Ascii("SHA1")| == 4 && |Ascii("SHA256")| == 6 && |Ascii("SHA512")| == 6;
    assert Ascii("SHA256")[3] != Ascii("SHA512")[3];
  }

  lemma HasAlgorithmIff(p: TotpParameters)
    ensures NamedAlgorithm(p.algorithm).Some? <==> HasAlgorithm(p)
  {
    hide NamedAlgorithm, Names;
    if a :| Names(p.algorithm, a) {
      NamedAlgorithmIff(p.algorithm, a);
    }
    if NamedAlgorithm(p.algorithm).Some? {
      NamedAlgorithmIff(p.algorithm, NamedAlgorithm(p.algorithm).value);
    }
  }

  lemma CounterBytes(p: TotpParameters, unixTime: u64)
    requires Representable(p)
    ensures Counts(p, unixTime, BigEndian8(Counter(p, unixTime)))
  {
    hide Value, Digits;
    var n := Counter(p, unixTime);
    EightBytes();
    ValueOfDigits(0x100, n, 8);
  }

  /** 256^8 is 2^64. */
  lemma EightBytes()
    ensures Pow(0x100, 8) == 0x1_0000_0000_0000_0000
  {
    assert Pow(0x100, 2) == 0x1_0000;
    PowAdd(0x100, 2, 2);
    PowAdd(0x100, 4, 4);
  }

  /** What is computed is the code. */
  lemma ComputedIsCode(hmac: Hmac, p: TotpParameters, unixTime: u64)
    requires IsHmac(hmac) && Representable(p) && NamedAlgorithm(p.algorithm).Some?
    ensures IsCode(hmac, p, unixTime, PrintedPadded(CodeNumber(hmac, p, unixTime), DigitsOf(p)))
  {
    hide NamedAlgorithm, PrintedPadded, Reading, RfcTruncated, Pow, Names, Counter, Counts, BigEndian8,
      CodeNumber, TextOrNone;
    var a, message := NamedAlgorithm(p.algorithm).value, BigEndian8(Counter(p, unixTime));
    NamedAlgorithmIff(p.algorithm, a);
    CounterBytes(p, unixTime);
    CodeReads(hmac, p, unixTime);
    assert IsCodeFrom(hmac, p, a, message, PrintedPadded(CodeNumber(hmac, p, unixTime), DigitsOf(p)));
  }

  /** There is one code at a time. */
  lemma CodeIsUnique(hmac: Hmac, p: TotpParameters, unixTime: u64, s: Text, t: Text)
    requires IsCode(hmac, p, unixTime, s) && IsCode(hmac, p, unixTime, t)
    ensures s == t
  {
    hide NamedAlgorithm, RfcTruncated, Pow, Names, Value;
    var a: Algorithm, m: seq<byte> :| Names(p.algorithm, a) && Counts(p, unixTime, m) && IsCodeFrom(hmac, p, a, m, s);
    var b: Algorithm, n: seq<byte> :| Names(p.algorithm, b) && Counts(p, unixTime, n) && IsCodeFrom(hmac, p, b, n, t);
    NamedAlgorithmIff(p.algorithm, a);
    NamedAlgorithmIff(p.algorithm, b);
    ValueInjective(0x100, m, n);
    ValueInjective(10, DigitValues(s), DigitValues(t));
    SameValuesSameString(s, t);
  }

  /** Clicking a secret: parse, compute, print. Nothing if the URL is refused or the algorithm unknown. */
  method CodeForUrl(hmac: Hmac, url: Text, unixTime: u64) returns (r: Option<Text>)
    requires IsHmac(hmac)
    ensures r.Some? <==> Parsed(url).Some? && HasAlgorithm(Parsed(url).value)
    ensures r.Some? ==> IsCode(hmac, Parsed(url).value, unixTime, r.value)
    ensures r.Some? ==>
              NamedAlgorithm(Parsed(url).value.algorithm).Some? &&
              var p := Parsed(url).value;
              Representable(p) && r.value == PrintedPadded(CodeNumber(hmac, p, unixTime), DigitsOf(p))
  {
    hide Parsed, Representable, NamedAlgorithm, HotpValue, PrintedPadded, IsCode, HasAlgorithm;
    var parsed := TryFromOtpauthUrl(url);
    if parsed.None? {
      return None;
    }
    var p := parsed.value;
    ParsedIsRepresentable(url);
    DefaultsAreGood(p);
    var algorithm := NamedAlgorithm(p.algorithm);
    HasAlgorithmIff(p);
    if algorithm.None? {
      return None;
    }
    ComputedIsCode(hmac, p, unixTime);
    var code := TimeCode(hmac, algorithm.value, p.key, unixTime, PeriodOf(p), DigitsOf(p));
    return Some(PrintedPadded(code, DigitsOf(p)));
  }

  /** The printed code has exactly the requested number of digits and reads back as the truncated
      digest modulo that power of ten. */
  lemma CodeReads(hmac: Hmac, p: TotpParameters, unixTime: u64)
    requires IsHmac(hmac) && Representable(p) && NamedAlgorithm(p.algorithm).Some?
    ensures var d := DigitsOf(p);
            var text := PrintedPadded(CodeNumber(hmac, p, unixTime), d);
            var mac := hmac(NamedAlgorithm(p.algorithm).value, p.key, BigEndian8(Counter(p, unixTime)));
            && |text| == d && |mac| >= 20 && Pow(10, d) > 0
            && Reading(text) == RfcTruncated(mac) % Pow(10, d)
  {
    hide Representable, NamedAlgorithm, PrintedPadded, Reading, RfcTruncated, Pow, HotpValue, Counter;
    DefaultsAreGood(p);
    PaddedReads(CodeNumber(hmac, p, unixTime), DigitsOf(p));
    HotpIsRemainder(hmac, NamedAlgorithm(p.algorithm).value, p.key, Counter(p, unixTime), DigitsOf(p));
  }

  lemma HotpIsRemainder(hmac: Hmac, a: Algorithm, secret: seq<byte>, counter: u64, digits: nat)
    requires IsHmac(hmac)
    ensures |hmac(a, secret, BigEndian8(counter))| >= 20 && Pow(10, digits) > 0
    ensures HotpValue(hmac, a, secret, counter, digits)
         == RfcTruncated(hmac(a, secret, BigEndian8(counter))) % Pow(10, digits)
  {
    hide RfcTruncated;
    assert |hmac(a, secret, BigEndian8(counter))| == DigestLength(a);
    PowPositive(10, digits);
  }

  /** Cutting a number down before printing its low digits changes none of them. */
  lemma {:induction false} DigitsOfRemainder(base: nat, n: nat, m: nat, k: nat)
    requires base > 0 && k <= m
    ensures Pow(base, m) > 0 && Digits(base, n % Pow(base, m), k) == Digits(base, n, k)
    decreases k
  {
    PowPositive(base, m);
    if k > 0 {
      RemainderStep(base, n, m);
      DivModBounds(n, base);
      DigitsOfRemainder(base, n / base, m - 1, k - 1);
    }
  }

  lemma RemainderStep(base: nat, n: nat, m: nat)
    requires base > 0 && m > 0
    ensures Pow(base, m) > 0 && Pow(base, m - 1) > 0
    ensures (n % Pow(base, m)) / base == (n / base) % Pow(base, m - 1)
    ensures (n % Pow(base, m)) % base == n % base
  {
    PowPositive(base, m);
    PowPositive(base, m - 1);
    var p := Pow(base, m - 1);
    DivModBounds(n, base);
    DivModBounds(n / base, p);
    var q, r := n / base / p, n / base % p;
    RemainderArithmetic(base, n, p, q, r);
    DivUnique(n, base * p, q, r * base + n % base);
    DivUnique(r * base + n % base, base, r, n % base);
  }

  lemma RemainderArithmetic(base: nat, n: nat, p: nat, q: nat, r: nat)
    requires base > 0 && p > 0 && r < p && n / base == q * p + r
    ensures n == q * (base * p) + (r * base + n % base)
    ensures r * base + n % base < base * p
  {
    DivModBounds(n, base);
    MulDist(q * p, r, base);
    MulAssoc(q, p, base);
    HornerBound(r, p, base, n % base);
  }

  /** The shorter code is the end of the longer one: with all else equal, fewer digits means dropping
      digits in front. */
  lemma ShorterCodeIsSuffix(hmac: Hmac, p: TotpParameters, q: TotpParameters, unixTime: u64)
    requires IsHmac(hmac) && Representable(p) && Representable(q) && NamedAlgorithm(p.algorithm).Some?
    requires q == p.(digits := q.digits) && DigitsOf(p) <= DigitsOf(q)
    ensures var short := PrintedPadded(CodeNumber(hmac, p, unixTime), DigitsOf(p));
            var long := PrintedPadded(CodeNumber(hmac, q, unixTime), DigitsOf(q));
            |long| == DigitsOf(q) && short == long[DigitsOf(q) - DigitsOf(p)..]
  {
    hide Representable, NamedAlgorithm, PrintedPadded, RfcTruncated, Pow, Digits, HotpValue, Counter;
    DefaultsAreGood(p);
    DefaultsAreGood(q);
    var a, counter := NamedAlgorithm(p.algorithm).value, Counter(p, unixTime);
    LowDigits(hmac, a, p.key, counter, DigitsOf(p));
    LowDigits(hmac, a, p.key, counter, DigitsOf(q));
    SamePeriodSameCounter(p, q, unixTime);
    var n := RfcTruncated(hmac(a, p.key, BigEndian8(counter)));
    DigitsSuffix(10, n, DigitsOf(q), DigitsOf(p));
    DigitCharsSuffix(Digits(10, n, DigitsOf(q)), DigitsOf(q) - DigitsOf(p));
  }

  lemma SamePeriodSameCounter(p: TotpParameters, q: TotpParameters, unixTime: u64)
    requires Representable(p) && Representable(q) && p.periodSeconds == q.periodSeconds
    ensures Counter(p, unixTime) == Counter(q, unixTime)
  {
  }

  lemma DigitCharsSuffix(ds: seq<nat>, k: nat)
    requires AllBelow(10, ds) && k <= |ds|
    ensures AllBelow(10, ds[k..]) && DigitChars(ds)[k..] == DigitChars(ds[k..])
  {
  }

  /** The printed code is the row of low decimal digits of the truncated digest. */
  lemma LowDigits(hmac: Hmac, a: Algorithm, secret: seq<byte>, counter: u64, d: nat)
    requires IsHmac(hmac) && d > 0
    ensures |hmac(a, secret, BigEndian8(counter))| >= 20
    ensures PrintedPadded(HotpValue(hmac, a, secret, counter, d), d)
         == DigitChars(Digits(10, RfcTruncated(hmac(a, secret, BigEndian8(counter))), d))
  {
    hide PrintedPadded, RfcTruncated, Pow, Digits, HotpValue;
    HotpIsRemainder(hmac, a, secret, counter, d);
    PaddedIsDigits(HotpValue(hmac, a, secret, counter, d), d);
    DigitsOfRemainder(10, RfcTruncated(hmac(a, secret, BigEndian8(counter))), d, d);
  }

  /** Within one period the code does not change; the counter moves at the next multiple of the period. */
  lemma SameWindowSameCode(hmac: Hmac, p: TotpParameters, t: u64, u: u64)
    requires IsHmac(hmac) && Representable(p) && NamedAlgorithm(p.algorithm).Some?
    requires exists k: nat ::
               && k * PeriodOf(p) <= t < (k + 1) * PeriodOf(p)
               && k * PeriodOf(p) <= u < (k + 1) * PeriodOf(p)
    ensures CodeNumber(hmac, p, t) == CodeNumber(hmac, p, u)
  {
    hide HotpValue, NamedAlgorithm;
    var period := PeriodOf(p);
    var k: nat :| k * period <= t < (k + 1) * period && k * period <= u < (k + 1) * period;
    MulDist(k, 1, period);
    DivUnique(t, period, k, t - k * period);
    DivUnique(u, period, k, u - k * period);
  }
}
