/** Which URLs the otpauth parser accepts, and what it returns for them: an exact account that does not
    go through the printer, for properties in any order, repeated, unknown or unreadable. */
module OtpauthGrammar {
  import opened Numbers
  import opened Outcomes
  import opened Utf8
  import opened UrlCodec
  import Base32
  import opened Decimal
  import opened OtpauthUrl
  import opened OtpauthRoundTrip

  // ----- one part of the path -----

  /** What an encoded part stands for, plus signs left alone: its tokens' meaning if that is text. */
  ghost predicate PartMeans(raw: Text, part: Option<Text>) {
    exists ts ::
      && Grammatical(ts) && RawAll(ts) == raw
      && part == if |raw| > 0 && ValidUtf8(MeaningAll(ts, false)) then Some(MeaningAll(ts, false)) else None
  }

  lemma PathPartIff(raw: Text, part: Option<Text>)
    ensures PathPart(raw) == part <==> PartMeans(raw, part)
  {
    hide UrlDecoded, AllWellFormed, IsCutOff, MeaningAll, ValidUtf8;
    var ts := Readable(raw);
    DecodesMeaning(ts, false);
    assert PartMeans(raw, PathPart(raw));
    if PartMeans(raw, part) {
      var us: seq<Token> :|
        && Grammatical(us) && RawAll(us) == raw
        && part == if |raw| > 0 && ValidUtf8(MeaningAll(us, false)) then Some(MeaningAll(us, false)) else None;
      ReadingsUnique(ts, us);
    }
  }

  // ----- one property -----

  /** The property is a readable pair: an equals sign after its key, and both sides text once their
      tokens are read, plus signs as spaces. */
  ghost predicate Pairs(property: Text, key: Text, value: Text) {
    exists ks, vs ::
      && Grammatical(ks) && Grammatical(vs)
      && property == RawAll(ks) + ['=' as int] + RawAll(vs) && Free(RawAll(ks), '=' as int)
      && key == MeaningAll(ks, true) && value == MeaningAll(vs, true) && ValidUtf8(key) && ValidUtf8(value)
  }

  function KeyValue(property: Text): Option<(Text, Text)> {
    match SplitOnce(property, EQUALS)
    case None => None
    case Some((key, value)) =>
      if ValidUtf8(UrlDecoded(key, true)) && ValidUtf8(UrlDecoded(value, true)) then
        Some((UrlDecoded(key, true), UrlDecoded(value, true)))
      else None
  }

  lemma KeyValueIff(property: Text, key: Text, value: Text)
    ensures KeyValue(property) == Some((key, value)) <==> Pairs(property, key, value)
  {
    hide UrlDecoded, IsCutOff, WellFormed, MeaningAll, ValidUtf8, SplitOnce;
    SplitOnceIs(property, EQUALS);
    if SplitOnce(property, EQUALS).Some? {
      var (k, v) := SplitOnce(property, EQUALS).value;
      var ks := Readable(k);
      var vs := Readable(v);
      DecodesMeaning(ks, true);
      DecodesMeaning(vs, true);
      assert KeyValue(property).Some? ==> Pairs(property, MeaningAll(ks, true), MeaningAll(vs, true));
    }
    if Pairs(property, key, value) {
      var ks: seq<Token>, vs: seq<Token> :|
        && Grammatical(ks) && Grammatical(vs)
        && property == RawAll(ks) + ['=' as int] + RawAll(vs) && Free(RawAll(ks), '=' as int)
        && key == MeaningAll(ks, true) && value == MeaningAll(vs, true) && ValidUtf8(key) && ValidUtf8(value);
      DecodesMeaning(ks, true);
      DecodesMeaning(vs, true);
      SplitOnceAt(RawAll(ks), EQUALS, RawAll(vs));
    }
  }

  lemma SplitOnceIs(s: Text, c: byte)
    ensures SplitOnce(s, c) == None <==> Free(s, c)
    ensures SplitOnce(s, c).Some? ==>
              var (a, b) := SplitOnce(s, c).value;
              s == a + [c] + b && Free(a, c)
  {
    var i := IndexOf(s, c);
    if i == |s| {
      assert s[..i] == s;
    } else {
      assert s == s[..i] + [c] + s[i + 1..];
    }
  }

  // ----- all properties -----

  /** The value of the last readable property with this key. */
  function LastValue(properties: seq<Text>, key: Text): Option<Text> {
    if |properties| == 0 then None
    else
      var last := KeyValue(properties[|properties| - 1]);
      if last.Some? && last.value.0 == key then Some(last.value.1)
      else LastValue(properties[..|properties| - 1], key)
  }

  /** The number that a value denotes is in range. */
  predicate DenotesBetween(value: Text, low: nat, high: nat, max: nat) {
    ParseUnsigned(value, max).Some? && low <= ParseUnsigned(value, max).value <= high
  }

  /** No readable property is called digits or period and has a value out of range. */
  predicate NumbersGood(properties: seq<Text>) {
    forall i :: 0 <= i < |properties| && KeyValue(properties[i]).Some? ==>
      var (key, value) := KeyValue(properties[i]).value;
      && (key == Ascii("digits") ==> DenotesBetween(value, 6, 8, 255))
      && (key == Ascii("period") ==> DenotesBetween(value, 1, 0xFFFF_FFFF_FFFF_FFFF, 0xFFFF_FFFF_FFFF_FFFF))
  }

  function NumberIn(value: Option<Text>, max: nat): Option<nat> {
    if value.None? then None else ParseUnsigned(value.value, max)
  }

  /** Each field holds what its last property says. */
  function Said(properties: seq<Text>): Fields {
    Fields(LastValue(properties, Ascii("secret")),
           LastValue(properties, Ascii("issuer")),
           LastValue(properties, Ascii("algorithm")),
           NumberIn(LastValue(properties, Ascii("digits")), 255),
           NumberIn(LastValue(properties, Ascii("period")), 0xFFFF_FFFF_FFFF_FFFF))
  }

  /** Property is assignment of a readable pair. */
  lemma PropertyIsAssign(f: Fields, property: Text)
    ensures Property(f, property)
         == match KeyValue(property) case None => Some(f) case Some((key, value)) => Assign(f, key, value)
  {
    hide UrlDecoded, ValidUtf8, SplitOnce, Assign;
  }

  lemma NamesDiffer()
    ensures SecretName() == Ascii("secret") && IssuerName() == Ascii("issuer")
    ensures AlgorithmName() == Ascii("algorithm") && DigitsName() == Ascii("digits") && PeriodName() == Ascii("period")
    ensures SecretName() !in {IssuerName(), AlgorithmName(), DigitsName(), PeriodName()}
    ensures IssuerName() !in {AlgorithmName(), DigitsName(), PeriodName()}
    ensures AlgorithmName() !in {DigitsName(), PeriodName()} && DigitsName() != PeriodName()
  {
    PlainNames();
  }

  lemma {:induction false} PropertiesIff(properties: seq<Text>)
    ensures Properties(NO_FIELDS, properties).Some? <==> NumbersGood(properties)
    ensures Properties(NO_FIELDS, properties).Some? ==> Properties(NO_FIELDS, properties).value == Said(properties)
    decreases |properties|
  {
    hide Property, KeyValue, Assign, Said, NumbersGood;
    if |properties| == 0 {
      NoProperties();
    } else {
      var front, last := properties[..|properties| - 1], properties[|properties| - 1];
      assert properties == front + [last];
      PropertiesIff(front);
      PropertiesConcat(NO_FIELDS, front, [last]);
      GoodByOne(front, last);
      if Properties(NO_FIELDS, front).Some? {
        var f := Properties(NO_FIELDS, front).value;
        PropertiesOne(f, last);
        PropertyIsAssign(f, last);
        OneMore(front, last);
      }
    }
  }

  lemma NoProperties()
    ensures NumbersGood([]) && Said([]) == NO_FIELDS
  {
  }

  predicate GoodOne(property: Text) {
    match KeyValue(property)
    case None => true
    case Some((key, value)) =>
      && (key == Ascii("digits") ==> DenotesBetween(value, 6, 8, 255))
      && (key == Ascii("period") ==> DenotesBetween(value, 1, 0xFFFF_FFFF_FFFF_FFFF, 0xFFFF_FFFF_FFFF_FFFF))
  }

  lemma GoodByOne(front: seq<Text>, last: Text)
    ensures NumbersGood(front + [last]) <==> NumbersGood(front) && GoodOne(last)
  {
    hide KeyValue, DenotesBetween, Ascii;
    var all := front + [last];
    assert forall i :: 0 <= i < |front| ==> all[i] == front[i];
    assert all[|front|] == last;
    if NumbersGood(front) && GoodOne(last) {
      forall i | 0 <= i < |all| && KeyValue(all[i]).Some?
        ensures GoodOne(all[i])
      {
        if i < |front| {
          assert KeyValue(front[i]).Some?;
        }
      }
    }
    if NumbersGood(all) {
      assert KeyValue(all[|front|]).Some? ==> GoodOne(last);
      forall i | 0 <= i < |front| && KeyValue(front[i]).Some?
        ensures GoodOne(front[i])
      {
        assert KeyValue(all[i]).Some?;
      }
    }
  }

  lemma OneMore(front: seq<Text>, last: Text)
    ensures var g := match KeyValue(last) case None => Some(Said(front))
                                          case Some((key, value)) => Assign(Said(front), key, value);
            && (g.Some? <==> GoodOne(last))
            && (g.Some? ==> g.value == Said(front + [last]))
  {
    hide KeyValue, SecretName, IssuerName, AlgorithmName, DigitsName, PeriodName, ParseUnsigned, LastValue, Ascii;
    NamesDiffer();
    LastOne(front, last);
    if KeyValue(last).Some? {
      AssignSaid(front, last, KeyValue(last).value.0, KeyValue(last).value.1);
    }
  }

  lemma AssignSaid(front: seq<Text>, last: Text, key: Text, value: Text)
    requires KeyValue(last) == Some((key, value))
    ensures Assign(Said(front), key, value).Some? <==> GoodOne(last)
    ensures Assign(Said(front), key, value).Some? ==> Assign(Said(front), key, value).value == Said(front + [last])
  {
    hide KeyValue, SecretName, IssuerName, AlgorithmName, DigitsName, PeriodName, ParseUnsigned, LastValue, Ascii;
    NamesDiffer();
    LastOne(front, last);
    ParsedInRange(value, MAX_U64);
  }

  lemma ParsedInRange(value: Text, max: nat)
    ensures ParseUnsigned(value, max).Some? ==> ParseUnsigned(value, max).value <= max
  {
  }

  lemma LastOne(front: seq<Text>, last: Text)
    ensures forall key ::
              LastValue(front + [last], key)
              == if KeyValue(last).Some? && KeyValue(last).value.0 == key then Some(KeyValue(last).value.1)
                 else LastValue(front, key)
  {
    hide KeyValue;
    assert (front + [last])[..|front|] == front;
  }

  /** A property without an equals sign, with an unknown key, or whose key or value is not text makes no
      difference, wherever it stands. */
  lemma OthersAreSkipped(f: Fields, a: seq<Text>, property: Text, b: seq<Text>)
    requires KeyValue(property).Some? ==>
               KeyValue(property).value.0 !in {Ascii("secret"), Ascii("issuer"), Ascii("algorithm"),
                                               Ascii("digits"), Ascii("period")}
    ensures Properties(f, a + [property] + b) == Properties(f, a + b)
  {
    hide KeyValue, Property, Assign, SecretName, IssuerName, AlgorithmName, DigitsName, PeriodName, Properties;
    NamesDiffer();
    PropertiesConcat(f, a + [property], b);
    PropertiesConcat(f, a, [property]);
    PropertiesConcat(f, a, b);
    if Properties(f, a).Some? {
      var g := Properties(f, a).value;
      PropertiesOne(g, property);
      PropertyIsAssign(g, property);
      if KeyValue(property).Some? {
        UnknownKey(g, KeyValue(property).value.0, KeyValue(property).value.1);
      }
    }
  }

  lemma UnknownKey(f: Fields, key: Text, value: Text)
    requires key !in {SecretName(), IssuerName(), AlgorithmName(), DigitsName(), PeriodName()}
    ensures Assign(f, key, value) == Some(f)
  {
  }

  // ----- the whole URL -----

  /** The URL is the prefix, a path without question mark, and perhaps a question mark and a query; the
      path is an issuer without colon, and perhaps a colon and a username; the query is properties
      without ampersand, joined by ampersands. What is missing is empty. */
  predicate Shape(url: Text, path: Text, query: Text, issuer: Text, username: Text, properties: seq<Text>) {
    && Free(path, '?' as int)
    && (|| url == Ascii("otpauth://totp/") + path + ['?' as int] + query
        || (url == Ascii("otpauth://totp/") + path && query == []))
    && Free(issuer, ':' as int)
    && (path == issuer + [':' as int] + username || (path == issuer && username == []))
    && |properties| > 0 && (forall i :: 0 <= i < |properties| ==> Free(properties[i], '&' as int))
    && Join(properties, '&' as int) == query
  }

  lemma SplitOrIff(s: Text, c: byte, a: Text, b: Text)
    ensures SplitOr(s, c) == (a, b) <==> Free(a, c) && (s == a + [c] + b || (s == a && b == []))
  {
    hide SplitOnce;
    SplitOnceIs(s, c);
    if Free(a, c) && s == a + [c] + b {
      SplitOnceAt(a, c, b);
    }
    if Free(a, c) && s == a {
      SplitOnceNowhere(a, c);
    }
  }

  lemma {:induction false} SplitParts(s: Text, c: byte)
    ensures Join(Split(s, c), c) == s && forall i :: 0 <= i < |Split(s, c)| ==> Free(Split(s, c)[i], c)
    decreases |s|
  {
    hide Free;
    var i := IndexOf(s, c);
    if i == |s| {
      assert s[..i] == s;
    } else {
      SplitParts(s[i + 1..], c);
      var rest := Split(s[i + 1..], c);
      assert ([s[..i]] + rest)[1..] == rest;
      assert s == s[..i] + [c] + s[i + 1..];
    }
  }

  lemma SplitIff(s: Text, c: byte, parts: seq<Text>)
    ensures Split(s, c) == parts
       <==> |parts| > 0 && (forall i :: 0 <= i < |parts| ==> Free(parts[i], c)) && Join(parts, c) == s
  {
    hide Split, Free;
    SplitParts(s, c);
    if |parts| > 0 && (forall i :: 0 <= i < |parts| ==> Free(parts[i], c)) && Join(parts, c) == s {
      SplitJoin(parts, c);
    }
  }

  /** A URL has at most one shape, and one exactly if it begins with the prefix. */
  lemma ShapeIff(url: Text, path: Text, query: Text, issuer: Text, username: Text, properties: seq<Text>)
    ensures Shape(url, path, query, issuer, username, properties)
       <==> && Prefix() <= url
            && SplitOr(url[|Prefix()|..], QUESTION) == (path, query)
            && SplitOr(path, COLON) == (issuer, username)
            && Split(query, AMPERSAND) == properties
  {
    hide SplitOr, Split, Join, Free;
    var prefix := Ascii("otpauth://totp/");
    assert Prefix() == prefix;
    SplitOrIff(path, COLON, issuer, username);
    SplitIff(query, AMPERSAND, properties);
    hide Ascii, Prefix;
    if prefix <= url {
      var rest := url[|prefix|..];
      SplitOrIff(rest, QUESTION, path, query);
      assert url == prefix + rest;
      PrefixCancels(prefix, rest, path + [QUESTION] + query);
      PrefixCancels(prefix, rest, path);
    }
    assert prefix + path + [QUESTION] + query == prefix + (path + [QUESTION] + query);
  }

  lemma PrefixCancels(prefix: Text, a: Text, b: Text)
    ensures prefix + a == prefix + b <==> a == b
  {
    if prefix + a == prefix + b {
      assert a == (prefix + a)[|prefix|..] == (prefix + b)[|prefix|..] == b;
    }
  }

  /** What the parts of a URL say about the record. */
  ghost predicate Says(issuer: Text, username: Text, properties: seq<Text>, p: TotpParameters) {
    var f := Said(properties);
    && NumbersGood(properties)
    && f.secret.Some? && Base32.Decoded(f.secret.value) == Some(p.key)
    && PartMeans(issuer, p.urlIssuer) && PartMeans(username, p.username)
    && p.attribIssuer == f.attribIssuer && p.algorithm == f.algorithm
    && p.digits == f.digits && p.periodSeconds == f.periodSeconds
  }

  lemma ParsedShape(url: Text, path: Text, query: Text, issuer: Text, username: Text, properties: seq<Text>,
                    p: TotpParameters)
    requires Shape(url, path, query, issuer, username, properties)
    ensures Parsed(url) == Some(p) <==> Says(issuer, username, properties, p)
  {
    hide Shape, SplitOr, Split, Properties, PathPart, PartMeans, NumbersGood, Said, Ascii, Prefix, Base32.Decoded;
    ShapeIff(url, path, query, issuer, username, properties);
    PropertiesIff(properties);
    PathPartIff(issuer, p.urlIssuer);
    PathPartIff(username, p.username);
  }

  /** The parser, exactly: it returns this record if and only if the URL has a shape whose parts say so. */
  lemma ParsedIff(url: Text, p: TotpParameters)
    ensures Parsed(url) == Some(p)
       <==> exists path, query, issuer, username, properties ::
              Shape(url, path, query, issuer, username, properties) && Says(issuer, username, properties, p)
  {
    hide Shape, Says, Split, Properties, PathPart, SplitOr, Ascii;
    if Prefix() <= url {
      var (path, query) := SplitOr(url[|Prefix()|..], QUESTION);
      var (issuer, username) := SplitOr(path, COLON);
      var properties := Split(query, AMPERSAND);
      ShapeIff(url, path, query, issuer, username, properties);
      ParsedShape(url, path, query, issuer, username, properties, p);
    }
    if path, query, issuer, username, properties :|
      Shape(url, path, query, issuer, username, properties) && Says(issuer, username, properties, p)
    {
      ParsedShape(url, path, query, issuer, username, properties, p);
    }
  }
}
