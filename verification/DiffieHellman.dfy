/** Diffie-Hellman key agreement at the byte level: one-true-pairing/src/secrets/dh.rs and
    `to_be_byte_vec` of one-true-pairing/src/secrets/mod.rs. Montgomery arithmetic is taken as exact
    arithmetic modulo the prime. */
module DiffieHellman {
  import opened Numbers
  import opened Outcomes

  const LIMB_SIZE := 8
  const LIMB_BASE := 0x1_0000_0000_0000_0000

  /** The group and the number of limbs of its integers. */
  datatype Group = Group(prime: nat, generator: nat, limbs: nat)

  /** What `new` demands: an odd modulus that fits the integer type. */
  predicate ValidGroup(g: Group) {
    g.prime % 2 == 1 && g.prime < Pow(0x100, LIMB_SIZE * g.limbs)
  }

  // ----- integers as limbs -----

  /** The number that limbs stand for, least significant limb first. */
  function LimbsValue(limbs: seq<u64>): nat {
    if |limbs| == 0 then 0 else limbs[0] + LIMB_BASE * LimbsValue(limbs[1..])
  }

  function LimbsOf(n: nat, count: nat): (limbs: seq<u64>)
    ensures |limbs| == count
  {
    if count == 0 then [] else [n % LIMB_BASE] + LimbsOf(n / LIMB_BASE, count - 1)
  }

  /** `to_be_byte_vec`: the limbs in reverse order, each as big-endian bytes. */
  function ToBeByteVec(limbs: seq<u64>): (bytes: seq<byte>)
    ensures |bytes| == LIMB_SIZE * |limbs|
  {
    if |limbs| == 0 then [] else ToBeByteVec(limbs[1..]) + Digits(0x100, limbs[0], LIMB_SIZE)
  }

  lemma LimbIsEightBytes()
    ensures Pow(0x100, 8) == LIMB_BASE
  {
    assert Pow(0x100, 2) == 0x1_0000;
    PowAdd(0x100, 2, 2);
    PowAdd(0x100, 4, 4);
  }

  /** The bytes denote the same number as the limbs. */
  lemma {:induction false} ByteVecValue(limbs: seq<u64>)
    ensures Value(0x100, ToBeByteVec(limbs)) == LimbsValue(limbs)
    decreases |limbs|
  {
    hide Value, Digits, Pow;
    if |limbs| == 0 {
      NoDigits();
    } else {
      LimbIsEightBytes();
      ByteVecValue(limbs[1..]);
      ValueConcat(0x100, ToBeByteVec(limbs[1..]), Digits(0x100, limbs[0], LIMB_SIZE));
      ValueOfDigits(0x100, limbs[0], LIMB_SIZE);
    }
  }

  lemma NoDigits()
    ensures Value(0x100, []) == 0
  {
  }

  lemma {:induction false} LimbsHold(n: nat, count: nat)
    requires n < Pow(LIMB_BASE, count)
    ensures LimbsValue(LimbsOf(n, count)) == n
    decreases count
  {
    if count > 0 {
      QuotientBound(LIMB_BASE, n, count);
      LimbsHold(n / LIMB_BASE, count - 1);
      assert LimbsOf(n, count)[1..] == LimbsOf(n / LIMB_BASE, count - 1);
    }
  }

  /** `retrieve` and `to_be_byte_vec` */
  function ToBeBytes(g: Group, n: nat): (bytes: seq<byte>)
    ensures |bytes| == LIMB_SIZE * g.limbs
  {
    ToBeByteVec(LimbsOf(n, g.limbs))
  }

  lemma ToBeBytesValue(g: Group, n: nat)
    requires n < Pow(0x100, LIMB_SIZE * g.limbs)
    ensures Value(0x100, ToBeBytes(g, n)) == n
  {
    hide Value, Pow;
    LimbIsEightBytes();
    PowPow(0x100, LIMB_SIZE, g.limbs);
    LimbsHold(n, g.limbs);
    ByteVecValue(LimbsOf(n, g.limbs));
  }

  // ----- keys -----

  /** Public keys are residues. */
  function DerivePublicKey(g: Group, privateKey: nat): (key: nat)
    requires g.prime > 0
    ensures key < g.prime
  {
    Pow(g.generator, privateKey) % g.prime
  }

  function DeriveSecretKey(g: Group, privateKey: nat, publicKey: nat): nat
    requires g.prime > 0
  {
    Pow(publicKey, privateKey) % g.prime
  }

  /** Pad on the left with zeros to the full width, read as one number, reduce. */
  method PublicKeyFromBeBytes(g: Group, bytes: seq<byte>) returns (key: Option<nat>)
    requires ValidGroup(g)
    ensures key == if |bytes| > LIMB_SIZE * g.limbs then None else Some(Value(0x100, bytes) % g.prime)
  {
    hide Value, Pow;
    var byteCount := g.limbs * LIMB_SIZE;
    if |bytes| > byteCount {
      return None;
    }
    var bytesVec: seq<byte> := [];
    if |bytes| < byteCount {
      var padCount := byteCount - |bytes|;
      bytesVec := bytesVec + Zeros(padCount);
    }
    bytesVec := bytesVec + bytes;
    assert |bytesVec| == byteCount;
    assert bytesVec == Zeros(byteCount - |bytes|) + bytes;
    LeadingZeros(0x100, byteCount - |bytes|, bytes);
    var publicKey := Value(0x100, bytesVec);
    return Some(publicKey % g.prime);
  }

  // ----- modular arithmetic -----

  lemma ModMul(a: nat, b: nat, m: nat)
    requires m > 0
    ensures (a % m) * b % m == a * b % m
  {
    DivModBounds(a, m);
    var q, r := a / m, a % m;
    DivModBounds(r * b, m);
    var q', r' := r * b / m, r * b % m;
    MulDist(q * m, r, b);
    MulAssoc(q, m, b);
    MulAssoc(q, b, m);
    assert m * b == b * m;
    MulDist(q * b, q', m);
    DivUnique(a * b, m, q * b + q', r');
  }

  /** Reducing before taking a power changes nothing. */
  lemma {:induction false} PowOfResidue(x: nat, e: nat, m: nat)
    requires m > 0
    ensures Pow(x % m, e) % m == Pow(x, e) % m
    decreases e
  {
    if e > 0 {
      PowOfResidue(x, e - 1, m);
      PowOfResidueStep(x, Pow(x % m, e - 1), Pow(x, e - 1), m);
    }
  }

  lemma PowOfResidueStep(x: nat, p: nat, q: nat, m: nat)
    requires m > 0 && p % m == q % m
    ensures (x % m) * p % m == x * q % m
  {
    ModMul(x, p, m);
    ModMul(p, x, m);
    ModMul(q, x, m);
    assert x * p == p * x && x * q == q * x;
  }

  lemma SecretIsCommonPower(g: Group, mine: nat, theirs: nat)
    requires g.prime > 0
    ensures DeriveSecretKey(g, mine, DerivePublicKey(g, theirs)) == Pow(g.generator, theirs * mine) % g.prime
  {
    hide Pow;
    PowOfResidue(Pow(g.generator, theirs), mine, g.prime);
    PowPow(g.generator, theirs, mine);
  }

  // ----- agreement -----

  /** What is left of a byte string when some of its leading zeros were dropped on the way. */
  predicate ZerosStripped(sent: seq<byte>, received: seq<byte>) {
    |received| <= |sent| && sent == Zeros(|sent| - |received|) + received
  }

  /** A public key survives the wire, with or without its leading zeros. */
  lemma KeySurvives(g: Group, privateKey: nat, received: seq<byte>)
    requires ValidGroup(g) && ZerosStripped(ToBeBytes(g, DerivePublicKey(g, privateKey)), received)
    ensures |received| <= LIMB_SIZE * g.limbs
    ensures Value(0x100, received) % g.prime == DerivePublicKey(g, privateKey)
  {
    hide Value, Pow, ToBeBytes, DerivePublicKey;
    var key := DerivePublicKey(g, privateKey);
    ToBeBytesValue(g, key);
    LeadingZeros(0x100, |ToBeBytes(g, key)| - |received|, received);
    SmallMod(key, g.prime);
  }

  lemma SmallMod(n: nat, m: nat)
    requires n < m
    ensures n % m == n
  {
  }

  /** Both sides, each decoding what arrives of the other's public key, derive the same secret: the
      generator to the product of the private keys. */
  method Agree(g: Group, a: nat, b: nat, fromA: seq<byte>, fromB: seq<byte>)
    returns (secretOfA: Option<nat>, secretOfB: Option<nat>)
    requires ValidGroup(g)
    requires ZerosStripped(ToBeBytes(g, DerivePublicKey(g, a)), fromA)
    requires ZerosStripped(ToBeBytes(g, DerivePublicKey(g, b)), fromB)
    ensures secretOfA == secretOfB == Some(Pow(g.generator, a * b) % g.prime)
  {
    hide Value, Pow, ToBeBytes;
    KeySurvives(g, a, fromA);
    KeySurvives(g, b, fromB);
    var keyOfB := PublicKeyFromBeBytes(g, fromB);
    var keyOfA := PublicKeyFromBeBytes(g, fromA);
    SecretIsCommonPower(g, a, b);
    SecretIsCommonPower(g, b, a);
    assert a * b == b * a;
    secretOfA := Some(DeriveSecretKey(g, a, keyOfB.value));
    secretOfB := Some(DeriveSecretKey(g, b, keyOfA.value));
  }
}
