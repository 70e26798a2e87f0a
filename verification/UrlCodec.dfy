/** The percent decoder of one-true-pairing/src/totp.rs:146-218, the token grammar it reads, and a
    percent encoder it inverts. */
module UrlCodec {
  import opened Numbers
  import opened Outcomes

  const PERCENT: byte := '%' as int
  const PLUS: byte := '+' as int
  const SPACE: byte := ' ' as int
  const NO_NIBBLE: byte := 0xFF

  function HexToNibble(hex: byte): (n: byte)
    ensures n < 16 || n == NO_NIBBLE
  {
    if '0' as int <= hex <= '9' as int then hex - '0' as int
    else if 'A' as int <= hex <= 'F' as int then hex - 'A' as int + 10
    else if 'a' as int <= hex <= 'f' as int then hex - 'a' as int + 10
    else NO_NIBBLE
  }

  predicate IsHex(b: byte) {
    HexToNibble(b) != NO_NIBBLE
  }

  const LOWER_HEX := "0123456789abcdef"
  const UPPER_HEX := "0123456789ABCDEF"

  /** The nibbles are the positions in the two hexadecimal alphabets; nothing else is a digit. */
  lemma NibbleTable(b: byte)
    ensures forall k :: 0 <= k < 16 ==> HexToNibble(LOWER_HEX[k] as int) == k == HexToNibble(UPPER_HEX[k] as int)
    ensures IsHex(b) ==> HexToNibble(b) < 16
                         && (b == LOWER_HEX[HexToNibble(b)] as int || b == UPPER_HEX[HexToNibble(b)] as int)
  {
    assert |LOWER_HEX| == 16 && |UPPER_HEX| == 16;
  }

  /** `(top << 4) | bottom` */
  function Combine(top: byte, bottom: byte): byte
    requires top < 16 && bottom < 16
  {
    CombineIsSum(top, bottom);
    BitOr(top * 16, bottom)
  }

  lemma CombineIsSum(top: nat, bottom: nat)
    requires top < 16 && bottom < 16
    ensures BitOr(top * 16, bottom) == top * 16 + bottom
  {
    SmallPowersOfTwo();
    BitOrShifted(top, 4, bottom);
  }

  /** What the decoder's loop still produces from what is left of its input. */
  function UrlDecoded(s: seq<byte>, plus: bool): seq<byte>
    decreases |s|
  {
    if |s| == 0 then []
    else if s[0] == PERCENT then
      if |s| == 1 then [PERCENT]
      else if !IsHex(s[1]) then [PERCENT, s[1]] + UrlDecoded(s[2..], plus)
      else if |s| == 2 then [PERCENT, s[1]]
      else if !IsHex(s[2]) then [PERCENT, s[1], s[2]] + UrlDecoded(s[3..], plus)
      else [Combine(HexToNibble(s[1]), HexToNibble(s[2]))] + UrlDecoded(s[3..], plus)
    else if s[0] == PLUS && plus then [SPACE] + UrlDecoded(s[1..], plus)
    else [s[0]] + UrlDecoded(s[1..], plus)
  }

  // ----- the grammar -----

  /** An escape; a percent sign whose first or second digit is none (the digits looked at are copied
      and not looked at again); a percent sign cut off by the end; any other byte. */
  datatype Token =
    | Escape(hi: byte, lo: byte)
    | BadFirst(c: byte)
    | BadSecond(hi: byte, c: byte)
    | CutOff
    | CutOffAfter(hi: byte)
    | Literal(c: byte)

  predicate WellFormed(t: Token) {
    match t
    case Escape(hi, lo) => IsHex(hi) && IsHex(lo)
    case BadFirst(c) => !IsHex(c)
    case BadSecond(hi, c) => IsHex(hi) && !IsHex(c)
    case CutOff => true
    case CutOffAfter(hi) => IsHex(hi)
    case Literal(c) => c != PERCENT
  }

  predicate IsCutOff(t: Token) {
    t.CutOff? || t.CutOffAfter?
  }

  function Raw(t: Token): seq<byte> {
    match t
    case Escape(hi, lo) => [PERCENT, hi, lo]
    case BadFirst(c) => [PERCENT, c]
    case BadSecond(hi, c) => [PERCENT, hi, c]
    case CutOff => [PERCENT]
    case CutOffAfter(hi) => [PERCENT, hi]
    case Literal(c) => [c]
  }

  function Meaning(t: Token, plus: bool): seq<byte>
    requires WellFormed(t)
  {
    match t
    case Escape(hi, lo) => [HexToNibble(hi) * 16 + HexToNibble(lo)]
    case Literal(c) => if c == PLUS && plus then [SPACE] else [c]
    case _ => Raw(t)
  }

  function RawAll(ts: seq<Token>): seq<byte> {
    if |ts| == 0 then [] else Raw(ts[0]) + RawAll(ts[1..])
  }

  predicate AllWellFormed(ts: seq<Token>) {
    forall i :: 0 <= i < |ts| ==> WellFormed(ts[i])
  }

  function MeaningAll(ts: seq<Token>, plus: bool): seq<byte>
    requires AllWellFormed(ts)
  {
    if |ts| == 0 then [] else Meaning(ts[0], plus) + MeaningAll(ts[1..], plus)
  }

  /** Only the last token may be cut off. */
  predicate Grammatical(ts: seq<Token>) {
    AllWellFormed(ts) && forall i :: 0 <= i < |ts| - 1 ==> !IsCutOff(ts[i])
  }

  function Escapes(ts: seq<Token>): nat {
    if |ts| == 0 then 0 else (if ts[0].Escape? then 1 else 0) + Escapes(ts[1..])
  }

  /** The token that starts s. */
  function FirstToken(s: seq<byte>): (t: Token)
    requires |s| > 0
    ensures WellFormed(t) && Raw(t) <= s && |Raw(t)| > 0
    ensures IsCutOff(t) ==> Raw(t) == s
  {
    if s[0] != PERCENT then Literal(s[0])
    else if |s| == 1 then CutOff
    else if !IsHex(s[1]) then BadFirst(s[1])
    else if |s| == 2 then CutOffAfter(s[1])
    else if !IsHex(s[2]) then BadSecond(s[1], s[2])
    else Escape(s[1], s[2])
  }

  /** Every input is a sentence of the grammar. */
  lemma {:induction false} Readable(s: seq<byte>) returns (ts: seq<Token>)
    ensures Grammatical(ts) && RawAll(ts) == s
    decreases |s|
  {
    hide FirstToken, Raw, WellFormed, IsCutOff;
    if |s| == 0 {
      ts := [];
    } else {
      var t := FirstToken(s);
      var rest := Readable(s[|Raw(t)|..]);
      ts := [t] + rest;
      assert s == Raw(t) + s[|Raw(t)|..];
      assert ts[1..] == rest;
      assert IsCutOff(t) ==> |rest| == 0 by {
        if |rest| > 0 {
          assert RawAll(rest) == Raw(rest[0]) + RawAll(rest[1..]);
          RawNotEmpty(rest[0]);
        }
      }
    }
  }

  lemma RawNotEmpty(t: Token)
    ensures |Raw(t)| > 0
  {
  }

  /** A grammatical token list starts with the token that starts its text. */
  lemma FirstIsForced(t: Token, rest: seq<byte>)
    requires WellFormed(t) && (IsCutOff(t) ==> rest == [])
    ensures FirstToken(Raw(t) + rest) == t
  {
  }

  /** One token of decoding. */
  lemma DecodeFirst(s: seq<byte>, plus: bool)
    requires |s| > 0
    ensures UrlDecoded(s, plus) == Meaning(FirstToken(s), plus) + UrlDecoded(s[|Raw(FirstToken(s))|..], plus)
  {
    hide BitOr;
    if FirstToken(s).Escape? {
      CombineIsSum(HexToNibble(s[1]), HexToNibble(s[2]));
    }
  }

  /** The loop: one token per round. */
  method UrlDecode(value: seq<byte>, plus: bool) returns (bytes: seq<byte>)
    ensures bytes == UrlDecoded(value, plus)
  {
    hide BitOr, UrlDecoded;
    DecodesNothing(plus);
    assert value[0..] == value;
    bytes := [];
    var i := 0;
    while i < |value|
      invariant i <= |value|
      invariant bytes + UrlDecoded(value[i..], plus) == UrlDecoded(value, plus)
    {
      var b := value[i];
      ghost var rest := value[i..];
      ghost var t := FirstToken(rest);
      DecodeFirst(rest, plus);
      AppendAssoc(bytes, Meaning(t, plus), UrlDecoded(rest[|Raw(t)|..], plus));
      i := i + 1;
      assert rest[1..] == value[i..];
      if b == PERCENT {
        if i == |value| {
          bytes := bytes + [PERCENT];
          continue;
        }
        var top := value[i];
        i := i + 1;
        assert rest[2..] == value[i..];
        var topNibble := HexToNibble(top);
        if topNibble == NO_NIBBLE {
          bytes := bytes + [PERCENT, top];
          continue;
        }
        if i == |value| {
          bytes := bytes + [PERCENT, top];
          continue;
        }
        var bottom := value[i];
        i := i + 1;
        assert rest[3..] == value[i..];
        var bottomNibble := HexToNibble(bottom);
        if bottomNibble == NO_NIBBLE {
          bytes := bytes + [PERCENT, top, bottom];
          continue;
        }
        CombineIsSum(topNibble, bottomNibble);
        bytes := bytes + [Combine(topNibble, bottomNibble)];
      } else if b == PLUS && plus {
        bytes := bytes + [SPACE];
      } else {
        bytes := bytes + [b];
      }
    }
    assert value[i..] == [];
  }

  lemma AppendAssoc(a: seq<byte>, b: seq<byte>, c: seq<byte>)
    ensures (a + b) + c == a + (b + c)
  {
  }

  lemma GrammaticalTail(ts: seq<Token>)
    requires Grammatical(ts) && |ts| > 0
    ensures Grammatical(ts[1..]) && (IsCutOff(ts[0]) ==> ts[1..] == [])
  {
    hide WellFormed, IsCutOff;
    assert forall i :: 1 <= i < |ts| ==> ts[1..][i - 1] == ts[i];
  }

  /** The decoder computes the meaning of any reading of its input. */
  lemma {:induction false} DecodesMeaning(ts: seq<Token>, plus: bool)
    requires Grammatical(ts)
    ensures UrlDecoded(RawAll(ts), plus) == MeaningAll(ts, plus)
    decreases |ts|
  {
    hide UrlDecoded, Meaning, Raw, FirstToken, WellFormed, IsCutOff;
    if |ts| == 0 {
      DecodesNothing(plus);
    } else {
      GrammaticalTail(ts);
      RawNotEmpty(ts[0]);
      var rest := RawAll(ts[1..]);
      FirstIsForced(ts[0], rest);
      DecodeFirst(RawAll(ts), plus);
      assert RawAll(ts)[|Raw(ts[0])|..] == rest;
      DecodesMeaning(ts[1..], plus);
    }
  }

  lemma DecodesNothing(plus: bool)
    ensures UrlDecoded([], plus) == []
  {
  }

  /** Readings are unique: the grammar is unambiguous. */
  lemma {:induction false} ReadingsUnique(ts: seq<Token>, us: seq<Token>)
    requires Grammatical(ts) && Grammatical(us) && RawAll(ts) == RawAll(us)
    ensures ts == us
    decreases |ts|
  {
    hide Raw, FirstToken, WellFormed, IsCutOff;
    if |ts| > 0 && |us| > 0 {
      GrammaticalTail(ts);
      GrammaticalTail(us);
      FirstIsForced(ts[0], RawAll(ts[1..]));
      FirstIsForced(us[0], RawAll(us[1..]));
      assert ts[0] == us[0];
      assert RawAll(ts)[|Raw(ts[0])|..] == RawAll(ts[1..]);
      assert RawAll(us)[|Raw(us[0])|..] == RawAll(us[1..]);
      ReadingsUnique(ts[1..], us[1..]);
      assert ts == [ts[0]] + ts[1..] && us == [us[0]] + us[1..];
    } else if |ts| > 0 {
      RawNotEmpty(ts[0]);
    } else if |us| > 0 {
      RawNotEmpty(us[0]);
    }
  }

  /** Decoding takes away exactly two bytes per escape, so the reserved capacity always suffices. */
  lemma {:induction false} DecodedSize(ts: seq<Token>, plus: bool)
    requires Grammatical(ts)
    ensures |UrlDecoded(RawAll(ts), plus)| + 2 * Escapes(ts) == |RawAll(ts)|
    decreases |ts|
  {
    hide UrlDecoded;
    DecodesMeaning(ts, plus);
    if |ts| > 0 {
      GrammaticalTail(ts);
      DecodedSize(ts[1..], plus);
      DecodesMeaning(ts[1..], plus);
    }
  }

  lemma DecodeConcatStep(t: Token, rest: seq<byte>, tail: seq<byte>, plus: bool)
    requires WellFormed(t) && !IsCutOff(t)
    requires UrlDecoded(rest + tail, plus) == UrlDecoded(rest, plus) + UrlDecoded(tail, plus)
    ensures UrlDecoded(Raw(t) + (rest + tail), plus) == UrlDecoded(Raw(t) + rest, plus) + UrlDecoded(tail, plus)
  {
    hide UrlDecoded, Meaning, Raw, FirstToken, WellFormed, IsCutOff;
    RawNotEmpty(t);
    FirstIsForced(t, rest + tail);
    FirstIsForced(t, rest);
    DecodeFirst(Raw(t) + (rest + tail), plus);
    DecodeFirst(Raw(t) + rest, plus);
    assert (Raw(t) + (rest + tail))[|Raw(t)|..] == rest + tail;
    assert (Raw(t) + rest)[|Raw(t)|..] == rest;
    AppendAssoc(Meaning(t, plus), UrlDecoded(rest, plus), UrlDecoded(tail, plus));
  }

  /** Decoding distributes over concatenation at a token boundary. */
  lemma {:induction false} DecodeConcat(ts: seq<Token>, tail: seq<byte>, plus: bool)
    requires Grammatical(ts) && forall i :: 0 <= i < |ts| ==> !IsCutOff(ts[i])
    ensures UrlDecoded(RawAll(ts) + tail, plus) == UrlDecoded(RawAll(ts), plus) + UrlDecoded(tail, plus)
    decreases |ts|
  {
    hide UrlDecoded, Raw, WellFormed, IsCutOff;
    if |ts| == 0 {
      DecodesNothing(plus);
      assert RawAll(ts) + tail == tail;
    } else {
      GrammaticalTail(ts);
      DecodeConcat(ts[1..], tail, plus);
      DecodeConcatStep(ts[0], RawAll(ts[1..]), tail, plus);
      assert RawAll(ts) + tail == Raw(ts[0]) + (RawAll(ts[1..]) + tail);
    }
  }

  // ----- the encoder -----

  /** Bytes that need no escape in any part of a URL. */
  predicate Unreserved(b: byte) {
    || 'A' as int <= b <= 'Z' as int || 'a' as int <= b <= 'z' as int || '0' as int <= b <= '9' as int
    || b == '-' as int || b == '.' as int || b == '_' as int || b == '~' as int
  }

  function HexDigit(n: nat): (b: byte)
    requires n < 16
    ensures HexToNibble(b) == n && Unreserved(b)
  {
    if n < 10 then '0' as int + n else 'A' as int + (n - 10)
  }

  function TokenFor(b: byte): (t: Token)
    ensures WellFormed(t) && !IsCutOff(t)
    ensures Meaning(t, true) == Meaning(t, false) == [b]
  {
    if Unreserved(b) then Literal(b) else Escape(HexDigit(b / 16), HexDigit(b % 16))
  }

  function TokensFor(bytes: seq<byte>): (ts: seq<Token>)
    ensures |ts| == |bytes| && Grammatical(ts)
  {
    seq(|bytes|, i requires 0 <= i < |bytes| => TokenFor(bytes[i]))
  }

  /** Every byte as itself if unreserved, as an escape otherwise. */
  function PercentEncoded(bytes: seq<byte>): seq<byte> {
    RawAll(TokensFor(bytes))
  }

  lemma {:induction false} MeaningOfTokens(bytes: seq<byte>, plus: bool)
    ensures MeaningAll(TokensFor(bytes), plus) == bytes
    decreases |bytes|
  {
    hide TokenFor, Meaning;
    if |bytes| > 0 {
      assert TokensFor(bytes)[1..] == TokensFor(bytes[1..]);
      MeaningOfTokens(bytes[1..], plus);
      assert bytes == [bytes[0]] + bytes[1..];
    }
  }

  /** Decoding inverts encoding, whatever is done about plus signs. */
  lemma DecodeEncode(bytes: seq<byte>, plus: bool)
    ensures UrlDecoded(PercentEncoded(bytes), plus) == bytes
  {
    hide UrlDecoded, RawAll, MeaningAll, TokensFor;
    DecodesMeaning(TokensFor(bytes), plus);
    MeaningOfTokens(bytes, plus);
  }

  /** The encoder writes nothing but unreserved bytes and percent signs. */
  lemma {:induction false} EncodedBytes(bytes: seq<byte>)
    ensures forall i :: 0 <= i < |PercentEncoded(bytes)| ==>
              Unreserved(PercentEncoded(bytes)[i]) || PercentEncoded(bytes)[i] == PERCENT
    ensures |PercentEncoded(bytes)| >= |bytes|
    decreases |bytes|
  {
    if |bytes| > 0 {
      assert TokensFor(bytes)[1..] == TokensFor(bytes[1..]);
      EncodedBytes(bytes[1..]);
    }
  }

  /** Text without percent and plus signs is its own decoding. */
  lemma {:induction false} PlainDecodes(s: seq<byte>, plus: bool)
    requires forall i :: 0 <= i < |s| ==> s[i] != PERCENT && s[i] != PLUS
    ensures UrlDecoded(s, plus) == s
    decreases |s|
  {
    if |s| > 0 {
      PlainDecodes(s[1..], plus);
    }
  }

  /** Something always decodes to something. */
  lemma DecodedNotEmpty(s: seq<byte>, plus: bool)
    requires |s| > 0
    ensures |UrlDecoded(s, plus)| > 0
  {
  }

  /** Without percent signs, decoding turns plus signs into spaces if asked to, and changes nothing else. */
  lemma {:induction false} PlusSigns(s: seq<byte>, plus: bool)
    requires forall i :: 0 <= i < |s| ==> s[i] != '%' as int
    ensures |UrlDecoded(s, plus)| == |s|
    ensures forall i :: 0 <= i < |s| ==>
              UrlDecoded(s, plus)[i] == if plus && s[i] == '+' as int then ' ' as int else s[i]
    decreases |s|
  {
    if |s| > 0 {
      PlusSigns(s[1..], plus);
    }
  }
}
