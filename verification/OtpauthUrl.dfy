/** The otpauth URL parser of one-true-pairing/src/totp.rs:49-205, a printer, and the round trip.
    A URL is the UTF-8 bytes of the string; all separators are ASCII. */
module OtpauthUrl {
  import opened Numbers
  import opened Outcomes
  import opened Utf8
  import opened UrlCodec
  import Base32
  import opened Decimal

  type Text = seq<byte>

  datatype TotpParameters = TotpParameters(
    key: seq<byte>,
    urlIssuer: Option<Text>,
    username: Option<Text>,
    attribIssuer: Option<Text>,
    algorithm: Option<Text>,
    digits: Option<nat>,
    periodSeconds: Option<nat>)

  const MAX_U8 := 0xFF
  const MAX_U64 := 0xFFFF_FFFF_FFFF_FFFF

  const QUESTION: byte := '?' as int
  const COLON: byte := ':' as int
  const AMPERSAND: byte := '&' as int
  const EQUALS: byte := '=' as int

  function Prefix(): Text {
    Ascii("otpauth://totp/")
  }

  function SecretName(): Text {
    Ascii("secret")
  }

  function IssuerName(): Text {
    Ascii("issuer")
  }

  function AlgorithmName(): Text {
    Ascii("algorithm")
  }

  function DigitsName(): Text {
    Ascii("digits")
  }

  function PeriodName(): Text {
    Ascii("period")
  }

  // ----- splitting -----

  predicate Free(s: Text, c: byte) {
    forall i :: 0 <= i < |s| ==> s[i] != c
  }

  /** Where c occurs first, or the length. */
  function IndexOf(s: Text, c: byte): (i: nat)
    ensures i <= |s| && Free(s[..i], c) && (i < |s| ==> s[i] == c)
  {
    if |s| == 0 || s[0] == c then 0
    else
      var i := 1 + IndexOf(s[1..], c);
      assert s[..i] == [s[0]] + s[1..][..i - 1];
      i
  }

  lemma IndexIs(s: Text, c: byte, i: nat)
    requires i <= |s| && Free(s[..i], c) && (i < |s| ==> s[i] == c)
    ensures IndexOf(s, c) == i
  {
    var k := IndexOf(s, c);
    assert forall j :: 0 <= j < i ==> s[..i][j] == s[j];
    assert forall j :: 0 <= j < k ==> s[..k][j] == s[j];
  }

  /** `split_once` */
  function SplitOnce(s: Text, c: byte): Option<(Text, Text)> {
    var i := IndexOf(s, c);
    if i == |s| then None else Some((s[..i], s[i + 1..]))
  }

  /** `split` */
  function Split(s: Text, c: byte): (parts: seq<Text>)
    ensures |parts| > 0
    decreases |s|
  {
    var i := IndexOf(s, c);
    if i == |s| then [s] else [s[..i]] + Split(s[i + 1..], c)
  }

  lemma SplitOnceAt(a: Text, c: byte, b: Text)
    requires Free(a, c)
    ensures SplitOnce(a + [c] + b, c) == Some((a, b))
  {
    var s := a + [c] + b;
    assert s[..|a|] == a && s[|a| + 1..] == b;
    IndexIs(s, c, |a|);
  }

  lemma SplitOnceNowhere(a: Text, c: byte)
    requires Free(a, c)
    ensures SplitOnce(a, c) == None
  {
    assert a[..|a|] == a;
    IndexIs(a, c, |a|);
  }

  function Join(parts: seq<Text>, c: byte): Text
    requires |parts| > 0
  {
    if |parts| == 1 then parts[0] else parts[0] + [c] + Join(parts[1..], c)
  }

  lemma {:induction false} SplitJoin(parts: seq<Text>, c: byte)
    requires |parts| > 0 && forall i :: 0 <= i < |parts| ==> Free(parts[i], c)
    ensures Split(Join(parts, c), c) == parts
    decreases |parts|
  {
    hide Free;
    var s := Join(parts, c);
    if |parts| == 1 {
      assert s[..|s|] == s;
      IndexIs(s, c, |s|);
    } else {
      var i := |parts[0]|;
      assert s[..i] == parts[0] && s[i] == c && s[i + 1..] == Join(parts[1..], c);
      IndexIs(s, c, i);
      SplitJoin(parts[1..], c);
      assert parts == [parts[0]] + parts[1..];
    }
  }

  // ----- the parser -----

  datatype Fields = Fields(secret: Option<Text>, attribIssuer: Option<Text>, algorithm: Option<Text>,
                           digits: Option<nat>, periodSeconds: Option<nat>)

  const NO_FIELDS := Fields(None, None, None, None, None)

  /** One decoded property; nothing if its value makes the whole URL unacceptable. */
  function Assign(f: Fields, key: Text, value: Text): Option<Fields> {
    if key == SecretName() then Some(f.(secret := Some(value)))
    else if key == IssuerName() then Some(f.(attribIssuer := Some(value)))
    else if key == AlgorithmName() then Some(f.(algorithm := Some(value)))
    else if key == DigitsName() then
      match ParseUnsigned(value, MAX_U8)
      case None => None
      case Some(n) => if n < 6 || n > 8 then None else Some(f.(digits := Some(n)))
    else if key == PeriodName() then
      match ParseUnsigned(value, MAX_U64)
      case None => None
      case Some(n) => if n == 0 then None else Some(f.(periodSeconds := Some(n)))
    else Some(f)
  }

  /** One raw property: skipped without an equals sign or if key or value is not text. */
  function Property(f: Fields, property: Text): Option<Fields> {
    match SplitOnce(property, EQUALS)
    case None => Some(f)
    case Some((key, value)) =>
      if !ValidUtf8(UrlDecoded(key, true)) || !ValidUtf8(UrlDecoded(value, true)) then Some(f)
      else Assign(f, UrlDecoded(key, true), UrlDecoded(value, true))
  }

  function Properties(f: Fields, properties: seq<Text>): Option<Fields>
    decreases |properties|
  {
    if |properties| == 0 then Some(f)
    else
      match Property(f, properties[0])
      case None => None
      case Some(g) => Properties(g, properties[1..])
  }

  /** A part of the path: absent if empty or not text. */
  function PathPart(raw: Text): Option<Text> {
    if |raw| > 0 && ValidUtf8(UrlDecoded(raw, false)) then Some(UrlDecoded(raw, false)) else None
  }

  function Assemble(f: Fields, issuer: Text, username: Text): Option<TotpParameters> {
    if f.secret.None? then None
    else
      match Base32.Decoded(f.secret.value)
      case None => None
      case Some(key) =>
        Some(TotpParameters(key, PathPart(issuer), PathPart(username),
                            f.attribIssuer, f.algorithm, f.digits, f.periodSeconds))
  }

  function SplitOr(s: Text, c: byte): (Text, Text) {
    match SplitOnce(s, c)
    case None => (s, [])
    case Some(parts) => parts
  }

  function Parsed(url: Text): Option<TotpParameters> {
    if !(Prefix() <= url) then None
    else
      var (path, query) := SplitOr(url[|Prefix()|..], QUESTION);
      var (issuer, username) := SplitOr(path, COLON);
      match Properties(NO_FIELDS, Split(query, AMPERSAND))
      case None => None
      case Some(f) => Assemble(f, issuer, username)
  }

  /** `zv_to_string` */
  function ToText(bytes: seq<byte>): Option<Text> {
    if ValidUtf8(bytes) then Some(bytes) else None
  }

  method ParsePathPart(raw: Text) returns (part: Option<Text>)
    ensures part == PathPart(raw)
  {
    if |raw| > 0 {
      var bytes := UrlDecode(raw, false);
      return ToText(bytes);
    }
    return None;
  }

  method TryFromOtpauthUrl(url: Text) returns (r: Option<TotpParameters>)
    ensures r == Parsed(url)
  {
    hide SplitOnce, Split, UrlDecoded, ValidUtf8, Prefix, SecretName, IssuerName, AlgorithmName, DigitsName, PeriodName,
      ParseUnsigned, Base32.Decoded;
    if !(Prefix() <= url) {
      return None;
    }
    var prefixless := url[|Prefix()|..];
    var (issuerUsername, params) := SplitOr(prefixless, QUESTION);
    var (urlIssuer, username) := SplitOr(issuerUsername, COLON);

    var f := NO_FIELDS;
    var properties := Split(params, AMPERSAND);
    for i := 0 to |properties|
      invariant Properties(NO_FIELDS, properties) == Properties(f, properties[i..])
    {
      assert properties[i..][1..] == properties[i + 1..];
      var parts := SplitOnce(properties[i], EQUALS);
      if parts.None? {
        continue;
      }
      var keyBytes := UrlDecode(parts.value.0, true);
      var key := ToText(keyBytes);
      if key.None? {
        continue;
      }
      var valueBytes := UrlDecode(parts.value.1, true);
      var value := ToText(valueBytes);
      if value.None? {
        continue;
      }
      if key.value == SecretName() {
        f := f.(secret := value);
      } else if key.value == IssuerName() {
        f := f.(attribIssuer := value);
      } else if key.value == AlgorithmName() {
        f := f.(algorithm := value);
      } else if key.value == DigitsName() {
        var digits := ParseUnsigned(value.value, MAX_U8);
        if digits.None? || digits.value < 6 || digits.value > 8 {
          return None;
        }
        f := f.(digits := digits);
      } else if key.value == PeriodName() {
        var period := ParseUnsigned(value.value, MAX_U64);
        if period.None? || period.value == 0 {
          return None;
        }
        f := f.(periodSeconds := period);
      }
    }

    if f.secret.None? {
      return None;
    }
    var key := Base32.DecodeBase32(f.secret.value);
    if key.None? {
      return None;
    }
    var issuerPart := ParsePathPart(urlIssuer);
    var usernamePart := ParsePathPart(username);
    return Some(TotpParameters(key.value, issuerPart, usernamePart,
                               f.attribIssuer, f.algorithm, f.digits, f.periodSeconds));
  }
}
