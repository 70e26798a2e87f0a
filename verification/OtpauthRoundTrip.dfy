/** Printing TOTP parameters as an otpauth URL and parsing the URL. */
module OtpauthRoundTrip {
  import opened Numbers
  import opened Outcomes
  import opened Utf8
  import opened UrlCodec
  import Base32
  import opened Decimal
  import opened OtpauthUrl

  // ----- the printer -----

  predicate TextOrNone(t: Option<Text>) {
    t.Some? ==> ValidUtf8(t.value)
  }

  /** The parameters a URL can stand for. */
  predicate Representable(p: TotpParameters) {
    && TextOrNone(p.urlIssuer) && TextOrNone(p.username) && TextOrNone(p.attribIssuer) && TextOrNone(p.algorithm)
    && (p.urlIssuer.Some? ==> |p.urlIssuer.value| > 0)
    && (p.username.Some? ==> |p.username.value| > 0)
    && (p.digits.Some? ==> 6 <= p.digits.value <= 8)
    && (p.periodSeconds.Some? ==> 0 < p.periodSeconds.value <= MAX_U64)
  }

  function Pair(name: Text, encoded: Text): Text {
    name + [EQUALS] + encoded
  }

  function TextProperty(name: Text, value: Option<Text>): seq<Text> {
    if value.Some? then [Pair(name, PercentEncoded(value.value))] else []
  }

  function NumberProperty(name: Text, value: Option<nat>): seq<Text> {
    if value.Some? then [Pair(name, Printed(value.value))] else []
  }

  function PropertiesOf(p: TotpParameters): (ps: seq<Text>)
    ensures |ps| > 0
  {
    [Pair(SecretName(), Base32.Encoded(p.key))]
    + TextProperty(IssuerName(), p.attribIssuer)
    + TextProperty(AlgorithmName(), p.algorithm)
    + NumberProperty(DigitsName(), p.digits)
    + NumberProperty(PeriodName(), p.periodSeconds)
  }

  function PathOf(p: TotpParameters): Text {
    (if p.urlIssuer.Some? then PercentEncoded(p.urlIssuer.value) else [])
    + (if p.username.Some? then [COLON] + PercentEncoded(p.username.value) else [])
  }

  function PrintedUrl(p: TotpParameters): Text {
    Prefix() + PathOf(p) + [QUESTION] + Join(PropertiesOf(p), AMPERSAND)
  }

  // ----- bytes that are no separators -----

  /** Neither a separator nor special to the percent decoder, and ASCII. */
  predicate PlainByte(b: byte) {
    && b < 0x80 && b != PERCENT && b != PLUS
    && b != AMPERSAND && b != EQUALS && b != QUESTION && b != COLON
  }

  predicate Plain(s: Text) {
    forall i :: 0 <= i < |s| ==> PlainByte(s[i])
  }

  /** No separator. */
  predicate Quoted(s: Text) {
    Free(s, AMPERSAND) && Free(s, EQUALS) && Free(s, QUESTION) && Free(s, COLON)
  }

  lemma EncodedIsQuoted(bytes: seq<byte>)
    ensures Quoted(PercentEncoded(bytes))
  {
    hide PercentEncoded;
    EncodedBytes(bytes);
  }

  lemma PlainNames()
    ensures Plain(SecretName()) && Plain(IssuerName()) && Plain(AlgorithmName())
    ensures Plain(DigitsName()) && Plain(PeriodName())
    ensures |SecretName()| > 0 && |IssuerName()| > 0 && |AlgorithmName()| > 0
    ensures |DigitsName()| > 0 && |PeriodName()| > 0
    ensures SecretName()[0] == 's' as int && IssuerName()[0] == 'i' as int && AlgorithmName()[0] == 'a' as int
    ensures DigitsName()[0] == 'd' as int && PeriodName()[0] == 'p' as int
  {
  }

  lemma Base32IsPlain(key: seq<byte>)
    ensures Plain(Base32.Encoded(key))
  {
    var s := Base32.Encoded(key);
    assert Base32.AllBase32(s);
    hide Base32.Encoded;
    forall i | 0 <= i < |s|
      ensures PlainByte(s[i])
    {
      assert Base32.IsBase32(s[i]);
    }
  }

  lemma NumberIsPlain(n: nat)
    ensures Plain(Printed(n))
  {
    hide Printed;
    var s := Printed(n);
    forall i | 0 <= i < |s|
      ensures PlainByte(s[i])
    {
      assert IsDigit(s[i]);
    }
  }

  lemma PlainIsText(s: Text)
    requires Plain(s)
    ensures UrlDecoded(s, true) == s && ValidUtf8(s) && Quoted(s)
  {
    hide UrlDecoded, ValidUtf8;
    PlainDecodes(s, true);
    AsciiIsUtf8(s);
  }

  // ----- one property -----

  /** A printed property is taken apart and decoded again. */
  lemma PropertyOfPair(f: Fields, name: Text, encoded: Text, value: Text)
    requires Plain(name) && UrlDecoded(encoded, true) == value && ValidUtf8(value)
    ensures Property(f, Pair(name, encoded)) == Assign(f, name, value)
  {
    hide UrlDecoded, ValidUtf8, Assign, SplitOnce;
    PlainIsText(name);
    SplitOnceAt(name, EQUALS, encoded);
  }

  lemma {:induction false} PropertiesConcat(f: Fields, a: seq<Text>, b: seq<Text>)
    ensures Properties(f, a + b)
         == if Properties(f, a).None? then None else Properties(Properties(f, a).value, b)
    decreases |a|
  {
    hide Property;
    if |a| == 0 {
      assert a + b == b;
    } else {
      assert (a + b)[1..] == a[1..] + b;
      var g := Property(f, a[0]);
      if g.Some? {
        PropertiesConcat(g.value, a[1..], b);
      }
    }
  }

  lemma PropertiesOne(f: Fields, property: Text)
    ensures Properties(f, [property]) == Property(f, property)
  {
    hide Property;
    assert [property][1..] == [];
  }

  lemma SecretRead(f: Fields, key: seq<byte>)
    ensures Properties(f, [Pair(SecretName(), Base32.Encoded(key))]) == Some(f.(secret := Some(Base32.Encoded(key))))
  {
    hide SecretName, Base32.Encoded, Property, Plain, UrlDecoded, ValidUtf8, Pair;
    PlainNames();
    Base32IsPlain(key);
    PlainIsText(Base32.Encoded(key));
    PropertyOfPair(f, SecretName(), Base32.Encoded(key), Base32.Encoded(key));
    PropertiesOne(f, Pair(SecretName(), Base32.Encoded(key)));
  }

  lemma TextRead(f: Fields, name: Text, value: Option<Text>)
    requires Plain(name) && TextOrNone(value)
    ensures Properties(f, TextProperty(name, value))
         == if value.Some? then Assign(f, name, value.value) else Some(f)
  {
    hide Property, UrlDecoded, ValidUtf8, Assign, PercentEncoded, Plain, Pair;
    if value.Some? {
      DecodeEncode(value.value, true);
      PropertyOfPair(f, name, PercentEncoded(value.value), value.value);
      PropertiesOne(f, Pair(name, PercentEncoded(value.value)));
    }
  }

  lemma NumberRead(f: Fields, name: Text, value: Option<nat>)
    requires Plain(name)
    ensures Properties(f, NumberProperty(name, value))
         == if value.Some? then Assign(f, name, Printed(value.value)) else Some(f)
  {
    hide Property, UrlDecoded, ValidUtf8, Assign, Printed, Plain, Pair;
    if value.Some? {
      NumberIsPlain(value.value);
      PlainIsText(Printed(value.value));
      PropertyOfPair(f, name, Printed(value.value), Printed(value.value));
      PropertiesOne(f, Pair(name, Printed(value.value)));
    }
  }

  lemma AssignedTexts(f: Fields, value: Text)
    ensures Assign(f, IssuerName(), value) == Some(f.(attribIssuer := Some(value)))
    ensures Assign(f, AlgorithmName(), value) == Some(f.(algorithm := Some(value)))
  {
    hide SecretName, IssuerName, AlgorithmName, DigitsName, PeriodName, ParseUnsigned;
    PlainNames();
  }

  lemma AssignedNumbers(f: Fields, n: nat)
    ensures 6 <= n <= 8 ==> Assign(f, DigitsName(), Printed(n)) == Some(f.(digits := Some(n)))
    ensures 0 < n <= MAX_U64 ==> Assign(f, PeriodName(), Printed(n)) == Some(f.(periodSeconds := Some(n)))
  {
    hide SecretName, IssuerName, AlgorithmName, DigitsName, PeriodName, ParseUnsigned, Printed;
    PlainNames();
    if n <= MAX_U8 {
      ParsePrinted(n, MAX_U8);
    }
    if n <= MAX_U64 {
      ParsePrinted(n, MAX_U64);
    }
  }

  // ----- all properties -----

  lemma AllPropertiesRead(p: TotpParameters)
    requires Representable(p)
    ensures Properties(NO_FIELDS, PropertiesOf(p))
         == Some(Fields(Some(Base32.Encoded(p.key)), p.attribIssuer, p.algorithm, p.digits, p.periodSeconds))
  {
    hide SecretName, IssuerName, AlgorithmName, DigitsName, PeriodName, Properties, Assign, Base32.Encoded, Plain,
      TextProperty, NumberProperty, Pair, ValidUtf8, Printed;
    PlainNames();
    var ps := [Pair(SecretName(), Base32.Encoded(p.key))];
    var f := NO_FIELDS.(secret := Some(Base32.Encoded(p.key)));
    SecretRead(NO_FIELDS, p.key);

    TextRead(f, IssuerName(), p.attribIssuer);
    PropertiesConcat(NO_FIELDS, ps, TextProperty(IssuerName(), p.attribIssuer));
    if p.attribIssuer.Some? {
      AssignedTexts(f, p.attribIssuer.value);
    }
    ps, f := ps + TextProperty(IssuerName(), p.attribIssuer), f.(attribIssuer := p.attribIssuer);
    assert Properties(NO_FIELDS, ps) == Some(f);

    TextRead(f, AlgorithmName(), p.algorithm);
    PropertiesConcat(NO_FIELDS, ps, TextProperty(AlgorithmName(), p.algorithm));
    if p.algorithm.Some? {
      AssignedTexts(f, p.algorithm.value);
    }
    ps, f := ps + TextProperty(AlgorithmName(), p.algorithm), f.(algorithm := p.algorithm);
    assert Properties(NO_FIELDS, ps) == Some(f);

    NumberRead(f, DigitsName(), p.digits);
    PropertiesConcat(NO_FIELDS, ps, NumberProperty(DigitsName(), p.digits));
    if p.digits.Some? {
      AssignedNumbers(f, p.digits.value);
    }
    ps, f := ps + NumberProperty(DigitsName(), p.digits), f.(digits := p.digits);
    assert Properties(NO_FIELDS, ps) == Some(f);

    NumberRead(f, PeriodName(), p.periodSeconds);
    PropertiesConcat(NO_FIELDS, ps, NumberProperty(PeriodName(), p.periodSeconds));
    if p.periodSeconds.Some? {
      AssignedNumbers(f, p.periodSeconds.value);
    }
  }

  // ----- a printed URL is text -----

  lemma EncodedIsAscii(bytes: seq<byte>)
    ensures AllAscii(PercentEncoded(bytes))
  {
    hide PercentEncoded;
    EncodedBytes(bytes);
  }

  lemma {:induction false} JoinIsAscii(parts: seq<Text>, c: byte)
    requires |parts| > 0 && c < 0x80 && forall i :: 0 <= i < |parts| ==> AllAscii(parts[i])
    ensures AllAscii(Join(parts, c))
    decreases |parts|
  {
    if |parts| > 1 {
      JoinIsAscii(parts[1..], c);
    }
  }

  lemma PairIsAscii(name: Text, encoded: Text)
    requires Plain(name) && (Plain(encoded) || AllAscii(encoded))
    ensures AllAscii(Pair(name, encoded))
  {
  }

  lemma PropertiesAreAscii(p: TotpParameters)
    ensures forall i :: 0 <= i < |PropertiesOf(p)| ==> AllAscii(PropertiesOf(p)[i])
  {
    hide SecretName, IssuerName, AlgorithmName, DigitsName, PeriodName, Base32.Encoded, Plain, Printed, PercentEncoded,
      Pair, AllAscii;
    PlainNames();
    Base32IsPlain(p.key);
    PairIsAscii(SecretName(), Base32.Encoded(p.key));
    if p.attribIssuer.Some? {
      EncodedIsAscii(p.attribIssuer.value);
      PairIsAscii(IssuerName(), PercentEncoded(p.attribIssuer.value));
    }
    if p.algorithm.Some? {
      EncodedIsAscii(p.algorithm.value);
      PairIsAscii(AlgorithmName(), PercentEncoded(p.algorithm.value));
    }
    if p.digits.Some? {
      NumberIsPlain(p.digits.value);
      PairIsAscii(DigitsName(), Printed(p.digits.value));
    }
    if p.periodSeconds.Some? {
      NumberIsPlain(p.periodSeconds.value);
      PairIsAscii(PeriodName(), Printed(p.periodSeconds.value));
    }
  }

  lemma PathIsAscii(p: TotpParameters)
    ensures AllAscii(PathOf(p))
  {
    hide PercentEncoded;
    if p.urlIssuer.Some? {
      EncodedIsAscii(p.urlIssuer.value);
    }
    if p.username.Some? {
      EncodedIsAscii(p.username.value);
    }
  }

  lemma PrintedIsText(p: TotpParameters)
    ensures ValidUtf8(PrintedUrl(p))
  {
    hide PathOf, PropertiesOf, Join, ValidUtf8;
    PathIsAscii(p);
    PropertiesAreAscii(p);
    JoinIsAscii(PropertiesOf(p), AMPERSAND);
    AsciiIsUtf8(PrintedUrl(p));
  }

  // ----- separators in printed properties -----

  lemma PropertiesHaveNoAmpersand(p: TotpParameters)
    ensures forall i :: 0 <= i < |PropertiesOf(p)| ==> Free(PropertiesOf(p)[i], AMPERSAND)
  {
    hide SecretName, IssuerName, AlgorithmName, DigitsName, PeriodName, Base32.Encoded, Plain, Printed, PercentEncoded,
      Pair, Free;
    PlainNames();
    Base32IsPlain(p.key);
    PairFree(SecretName(), Base32.Encoded(p.key));
    if p.attribIssuer.Some? {
      EncodedIsQuoted(p.attribIssuer.value);
      PairFree(IssuerName(), PercentEncoded(p.attribIssuer.value));
    }
    if p.algorithm.Some? {
      EncodedIsQuoted(p.algorithm.value);
      PairFree(AlgorithmName(), PercentEncoded(p.algorithm.value));
    }
    if p.digits.Some? {
      NumberIsPlain(p.digits.value);
      PairFree(DigitsName(), Printed(p.digits.value));
    }
    if p.periodSeconds.Some? {
      NumberIsPlain(p.periodSeconds.value);
      PairFree(PeriodName(), Printed(p.periodSeconds.value));
    }
  }

  lemma PairFree(name: Text, encoded: Text)
    requires Plain(name) && (Plain(encoded) || Quoted(encoded))
    ensures Free(Pair(name, encoded), AMPERSAND)
  {
  }

  // ----- the path -----

  lemma PathFree(p: TotpParameters)
    ensures Free(PathOf(p), QUESTION)
  {
    hide PercentEncoded;
    if p.urlIssuer.Some? {
      EncodedIsQuoted(p.urlIssuer.value);
    }
    if p.username.Some? {
      EncodedIsQuoted(p.username.value);
    }
  }

  lemma PathRead(p: TotpParameters)
    requires Representable(p)
    ensures var (issuer, username) := SplitOr(PathOf(p), COLON);
            PathPart(issuer) == p.urlIssuer && PathPart(username) == p.username
  {
    hide PercentEncoded, UrlDecoded, ValidUtf8, SplitOnce;
    var issuer := if p.urlIssuer.Some? then PercentEncoded(p.urlIssuer.value) else [];
    if p.urlIssuer.Some? {
      EncodedIsQuoted(p.urlIssuer.value);
      EncodedBytes(p.urlIssuer.value);
      DecodeEncode(p.urlIssuer.value, false);
    }
    if p.username.Some? {
      EncodedBytes(p.username.value);
      DecodeEncode(p.username.value, false);
      SplitOnceAt(issuer, COLON, PercentEncoded(p.username.value));
      assert PathOf(p) == issuer + [COLON] + PercentEncoded(p.username.value);
    } else {
      SplitOnceNowhere(issuer, COLON);
      assert PathOf(p) == issuer;
    }
  }

  // ----- the round trip -----

  /** Printing gives text, and parsing gives the parameters back: every combination of optional fields,
      any text, any key. */
  lemma UrlRoundTrip(p: TotpParameters)
    requires Representable(p)
    ensures ValidUtf8(PrintedUrl(p)) && Parsed(PrintedUrl(p)) == Some(p)
  {
    PrintedIsText(p);
    hide ValidUtf8, Prefix, PathOf, PropertiesOf, Join, SplitOnce, Split, Properties, Representable, PathPart,
      Base32.Encoded, Base32.Decoded;
    var path, query := PathOf(p), Join(PropertiesOf(p), AMPERSAND);
    var url := PrintedUrl(p);
    assert url[|Prefix()|..] == path + [QUESTION] + query;
    assert url[..|Prefix()|] == Prefix();
    PathFree(p);
    SplitOnceAt(path, QUESTION, query);
    PropertiesHaveNoAmpersand(p);
    SplitJoin(PropertiesOf(p), AMPERSAND);
    AllPropertiesRead(p);
    PathRead(p);
    Base32.DecodeEncode(p.key);
  }

  /** The parser returns only representable parameters. */
  lemma ParsedIsRepresentable(url: Text)
    requires Parsed(url).Some?
    ensures Representable(Parsed(url).value)
  {
    hide Prefix, SplitOnce, Split, Properties, Base32.Decoded, UrlDecoded, ValidUtf8;
    var (path, query) := SplitOr(url[|Prefix()|..], QUESTION);
    var (issuer, username) := SplitOr(path, COLON);
    FieldsStayGood(NO_FIELDS, Split(query, AMPERSAND));
    PathPartGood(issuer);
    PathPartGood(username);
  }

  predicate GoodFields(f: Fields) {
    && TextOrNone(f.attribIssuer) && TextOrNone(f.algorithm)
    && (f.digits.Some? ==> 6 <= f.digits.value <= 8)
    && (f.periodSeconds.Some? ==> 0 < f.periodSeconds.value <= MAX_U64)
  }

  lemma {:induction false} FieldsStayGood(f: Fields, properties: seq<Text>)
    requires GoodFields(f)
    ensures Properties(f, properties).Some? ==> GoodFields(Properties(f, properties).value)
    decreases |properties|
  {
    hide SplitOnce, UrlDecoded, ValidUtf8, SecretName, IssuerName, AlgorithmName, DigitsName, PeriodName;
    if |properties| > 0 {
      var g := Property(f, properties[0]);
      if g.Some? {
        assert GoodFields(g.value);
        FieldsStayGood(g.value, properties[1..]);
      }
    }
  }

  lemma PathPartGood(raw: Text)
    ensures TextOrNone(PathPart(raw)) && (PathPart(raw).Some? ==> |PathPart(raw).value| > 0)
  {
    hide UrlDecoded, ValidUtf8;
    if |raw| > 0 {
      DecodedNotEmpty(raw, false);
    }
  }

  /** Printing is a normal form: whatever URL was parsed, printing its parameters gives a URL that
      means the same. */
  lemma PrintingNormalizes(url: Text)
    requires Parsed(url).Some?
    ensures ValidUtf8(PrintedUrl(Parsed(url).value)) && Parsed(PrintedUrl(Parsed(url).value)) == Parsed(url)
  {
    hide ValidUtf8, Parsed, PrintedUrl, Representable;
    ParsedIsRepresentable(url);
    UrlRoundTrip(Parsed(url).value);
  }

  /** A parameter record has a URL, which is text, exactly if it is representable. */
  lemma HasUrlIff(p: TotpParameters)
    ensures (exists url :: ValidUtf8(url) && Parsed(url) == Some(p)) <==> Representable(p)
  {
    hide Parsed, PrintedUrl, Representable, ValidUtf8;
    if Representable(p) {
      UrlRoundTrip(p);
    }
    if url :| ValidUtf8(url) && Parsed(url) == Some(p) {
      ParsedIsRepresentable(url);
    }
  }
}
