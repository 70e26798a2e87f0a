/** Well-formedness of UTF-8, as the standard library's `from_utf8` decides it
    (Table 3-7 of the Unicode Standard). Strings are modelled as their UTF-8 bytes. */
module Utf8 {
  import opened Numbers

  predicate Continuation(b: byte) {
    0x80 <= b <= 0xBF
  }

  /** Length of the well-formed character that starts s, or 0 if there is none. */
  function CharLength(s: seq<byte>): (n: nat)
    requires |s| > 0
    ensures n <= |s|
  {
    var b := s[0];
    if b < 0x80 then 1
    else if 0xC2 <= b <= 0xDF then
      if |s| >= 2 && Continuation(s[1]) then 2 else 0
    else if 0xE0 <= b <= 0xEF then
      if && |s| >= 3 && Continuation(s[1]) && Continuation(s[2])
         && (b == 0xE0 ==> 0xA0 <= s[1]) && (b == 0xED ==> s[1] <= 0x9F)
      then 3 else 0
    else if 0xF0 <= b <= 0xF4 then
      if && |s| >= 4 && Continuation(s[1]) && Continuation(s[2]) && Continuation(s[3])
         && (b == 0xF0 ==> 0x90 <= s[1]) && (b == 0xF4 ==> s[1] <= 0x8F)
      then 4 else 0
    else 0
  }

  predicate ValidUtf8(s: seq<byte>)
    decreases |s|
  {
    |s| == 0 || (CharLength(s) > 0 && ValidUtf8(s[CharLength(s)..]))
  }

  predicate AllAscii(s: seq<byte>) {
    forall i :: 0 <= i < |s| ==> s[i] < 0x80
  }

  /** A string of ASCII bytes is well-formed. */
  lemma {:induction false} AsciiIsUtf8(s: seq<byte>)
    requires AllAscii(s)
    ensures ValidUtf8(s)
    decreases |s|
  {
    if |s| > 0 {
      AsciiIsUtf8(s[1..]);
    }
  }

  /** The bytes of an ASCII literal. */
  function Ascii(s: string): (bs: seq<byte>)
    requires forall i :: 0 <= i < |s| ==> s[i] as int < 0x80
    ensures |bs| == |s| && forall i :: 0 <= i < |s| ==> bs[i] == s[i] as int < 0x80
  {
    seq(|s|, i requires 0 <= i < |s| => s[i] as int)
  }

  // ----- what well-formedness means -----

  /** A Unicode scalar value: a code point that is no surrogate. */
  predicate Scalar(v: nat) {
    v < 0x11_0000 && !(0xD800 <= v < 0xE000)
  }

  predicate AllScalar(vs: seq<nat>) {
    forall i :: 0 <= i < |vs| ==> Scalar(vs[i])
  }

  /** The shortest form of a scalar value: six bits per continuation byte. */
  function EncodeChar(v: nat): (s: seq<byte>)
    requires Scalar(v)
    ensures |s| > 0
  {
    if v < 0x80 then [v]
    else if v < 0x800 then [0xC0 + v / 0x40, 0x80 + v % 0x40]
    else if v < 0x1_0000 then [0xE0 + v / 0x40 / 0x40, 0x80 + v / 0x40 % 0x40, 0x80 + v % 0x40]
    else [0xF0 + v / 0x40 / 0x40 / 0x40, 0x80 + v / 0x40 / 0x40 % 0x40, 0x80 + v / 0x40 % 0x40, 0x80 + v % 0x40]
  }

  function EncodeChars(vs: seq<nat>): seq<byte>
    requires AllScalar(vs)
  {
    if |vs| == 0 then [] else EncodeChar(vs[0]) + EncodeChars(vs[1..])
  }

  lemma EncodedLength(v: nat, rest: seq<byte>)
    requires Scalar(v)
    ensures CharLength(EncodeChar(v) + rest) == |EncodeChar(v)|
  {
    var s := EncodeChar(v) + rest;
    assert forall i :: 0 <= i < |EncodeChar(v)| ==> s[i] == EncodeChar(v)[i];
  }

  function Join2(hi: nat, lo: nat): nat {
    hi * 0x40 + lo
  }

  lemma Join2Splits(hi: nat, lo: nat)
    requires lo < 0x40
    ensures Join2(hi, lo) / 0x40 == hi && Join2(hi, lo) % 0x40 == lo
  {
  }

  /** The scalar value of a well-formed character. */
  lemma CharIsEncoded(s: seq<byte>) returns (v: nat)
    requires |s| > 0 && CharLength(s) > 0
    ensures Scalar(v) && EncodeChar(v) == s[..CharLength(s)]
  {
    var n := CharLength(s);
    if n == 1 {
      v := s[0];
    } else {
      var lead := s[0] - if n == 2 then 0xC0 else if n == 3 then 0xE0 else 0xF0;
      v := Join2(lead, s[1] - 0x80);
      Join2Splits(lead, s[1] - 0x80);
      if n > 2 {
        var w := v;
        v := Join2(w, s[2] - 0x80);
        Join2Splits(w, s[2] - 0x80);
      }
      if n > 3 {
        var w := v;
        v := Join2(w, s[3] - 0x80);
        Join2Splits(w, s[3] - 0x80);
      }
    }
  }

  /** Bytes are well-formed exactly if they are the encoding of scalar values. */
  lemma {:induction false} ValidUtf8Iff(s: seq<byte>)
    ensures ValidUtf8(s) <==> exists vs :: AllScalar(vs) && EncodeChars(vs) == s
    decreases |s|
  {
    hide Scalar, EncodeChar, CharLength;
    if |s| == 0 {
      assert EncodeChars([]) == s;
    } else {
      if ValidUtf8(s) {
        var n := CharLength(s);
        var v := CharIsEncoded(s);
        ValidUtf8Iff(s[n..]);
        var vs: seq<nat> :| AllScalar(vs) && EncodeChars(vs) == s[n..];
        assert ([v] + vs)[1..] == vs;
        assert EncodeChars([v] + vs) == s[..n] + s[n..] == s;
      }
      if vs: seq<nat> :| AllScalar(vs) && EncodeChars(vs) == s {
        var rest := EncodeChars(vs[1..]);
        EncodedLength(vs[0], rest);
        assert s[|EncodeChar(vs[0])|..] == rest;
        ValidUtf8Iff(rest);
      }
    }
  }
}
