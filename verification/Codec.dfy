/** The codec as a whole: which bytes and descriptors a list of read functions accepts, and what it
    returns for them. */
module Codec {
  import opened Numbers
  import opened Outcomes
  import opened Utf8
  import opened Packets

  // ----- whole argument lists -----

  predicate AllEncodable(vs: seq<WireValue>) {
    forall i :: 0 <= i < |vs| ==> Encodable(vs[i])
  }

  predicate Typed(fns: seq<ReadFn>, vs: seq<WireValue>) {
    |fns| == |vs| && forall i :: 0 <= i < |vs| ==> Yields(fns[i], vs[i])
  }

  function EncodeAll(order: ByteOrder, vs: seq<WireValue>): seq<byte>
    requires AllEncodable(vs)
  {
    if |vs| == 0 then [] else Encode(order, vs[0]) + EncodeAll(order, vs[1..])
  }

  function AllFds(vs: seq<WireValue>): seq<Fd> {
    if |vs| == 0 then [] else FdsOf(vs[0]) + AllFds(vs[1..])
  }

  /** Every read in order, then the completeness check. */
  function DecodeFrom(order: ByteOrder, fns: seq<ReadFn>, payload: seq<byte>, fds: seq<Fd>, c: Cursor)
    : Result<seq<WireValue>, Error>
  {
    if |fns| == 0 then
      match Finish(payload, fds, c)
      case Ok(_) => Ok([])
      case Err(e) => Err(e)
    else
      var r := ReadValue(order, fns[0], payload, fds, c);
      match r.result
      case Err(e) => Err(e)
      case Ok(v) =>
        match DecodeFrom(order, fns[1..], payload, fds, r.cursor)
        case Err(e) => Err(e)
        case Ok(vs) => Ok([v] + vs)
  }

  function Decode(order: ByteOrder, fns: seq<ReadFn>, payload: seq<byte>, fds: seq<Fd>)
    : Result<seq<WireValue>, Error>
  {
    DecodeFrom(order, fns, payload, fds, Cursor(0, 0))
  }

  // ----- which bytes of an encoding are significant -----

  function Repeat(b: bool, n: nat): (m: seq<bool>)
    ensures |m| == n && forall i :: 0 <= i < n ==> m[i] == b
  {
    seq(n, _ => b)
  }

  function MaskStr(s: seq<byte>): seq<bool> {
    Repeat(true, |s| + 5) + Repeat(false, PadLength(|s| + 1))
  }

  function MaskArray(a: seq<byte>): seq<bool> {
    Repeat(true, |a| + 4) + Repeat(false, PadLength(|a|))
  }

  /** True at data bytes, false at padding bytes. */
  function Mask(v: WireValue): seq<bool> {
    match v
    case StrV(s) => MaskStr(s)
    case ArrayV(a) => MaskArray(a)
    case NewObjectV(n) => MaskStr(n.interfaceName) + Repeat(true, 8)
    case FdV(_) => []
    case _ => Repeat(true, 4)
  }

  function MaskAll(vs: seq<WireValue>): seq<bool> {
    if |vs| == 0 then [] else Mask(vs[0]) + MaskAll(vs[1..])
  }

  /** The bytes are the encoding except, perhaps, where the mask marks padding. */
  predicate Agrees(bytes: seq<byte>, encoding: seq<byte>, mask: seq<bool>) {
    && |bytes| == |encoding| == |mask|
    && forall i :: 0 <= i < |bytes| && mask[i] ==> bytes[i] == encoding[i]
  }

  lemma AgreesConcat(b1: seq<byte>, b2: seq<byte>, e1: seq<byte>, e2: seq<byte>, m1: seq<bool>, m2: seq<bool>)
    requires |b1| == |e1| == |m1|
    ensures Agrees(b1 + b2, e1 + e2, m1 + m2) <==> Agrees(b1, e1, m1) && Agrees(b2, e2, m2)
  {
    if Agrees(b1 + b2, e1 + e2, m1 + m2) {
      assert forall i :: 0 <= i < |b1| ==> (m1 + m2)[i] == m1[i] && (b1 + b2)[i] == b1[i] && (e1 + e2)[i] == e1[i];
      forall i | 0 <= i < |b2| && m2[i]
        ensures b2[i] == e2[i]
      {
        var k := |b1| + i;
        assert (m1 + m2)[k] == m2[i] && (b1 + b2)[k] == b2[i] && (e1 + e2)[k] == e2[i];
      }
    }
  }

  lemma AgreesEverywhere(bytes: seq<byte>, encoding: seq<byte>)
    ensures Agrees(bytes, encoding, Repeat(true, |bytes|)) <==> bytes == encoding
  {
  }

  /** Padding bytes are written as zero. */
  predicate ZeroOffMask(encoding: seq<byte>, mask: seq<bool>) {
    |encoding| == |mask| && forall i :: 0 <= i < |mask| && !mask[i] ==> encoding[i] == 0
  }

  lemma EncodeStrShape(order: ByteOrder, s: seq<byte>)
    requires EncodableStr(s)
    ensures |EncodeStr(order, s)| == |s| + 5 + PadLength(|s| + 1)
    ensures |EncodeStr(order, s)| % 4 == 0
    ensures ZeroOffMask(EncodeStr(order, s), MaskStr(s))
  {
  }

  lemma EncodeArrayShape(order: ByteOrder, a: seq<byte>)
    requires |a| < 0x1_0000_0000
    ensures |EncodeArray(order, a)| == |a| + 4 + PadLength(|a|)
    ensures |EncodeArray(order, a)| % 4 == 0
    ensures ZeroOffMask(EncodeArray(order, a), MaskArray(a))
  {
  }

  lemma EncodingShape(order: ByteOrder, v: WireValue)
    requires Encodable(v)
    ensures |Encode(order, v)| % 4 == 0
    ensures ZeroOffMask(Encode(order, v), Mask(v))
  {
    hide PutU32, EncodeStr, EncodeArray, MaskStr, MaskArray, PadLength;
    match v
    case StrV(s) => EncodeStrShape(order, s);
    case ArrayV(a) => EncodeArrayShape(order, a);
    case NewObjectV(n) => EncodeStrShape(order, n.interfaceName);
    case _ =>
  }

  // ----- one value -----

  /** The read at `c` succeeds with v and stops at `c'`. */
  predicate Accepted(order: ByteOrder, v: WireValue, payload: seq<byte>, fds: seq<Fd>, c: Cursor, c': Cursor) {
    && Encodable(v)
    && c.pos <= c'.pos <= |payload| && c.fd <= c'.fd <= |fds|
    && Agrees(payload[c.pos..c'.pos], Encode(order, v), Mask(v))
    && fds[c.fd..c'.fd] == FdsOf(v)
  }

  lemma TakeU32Iff(order: ByteOrder, payload: seq<byte>, pos: nat, u: u32, pos': nat)
    ensures TakeU32(order, payload, pos) == Taken(Ok(u), pos')
       <==> pos <= pos' <= |payload| && payload[pos..pos'] == PutU32(order, u)
  {
    if pos + 4 <= |payload| {
      BytesU32(order, payload[pos..pos + 4]);
    }
    U32Bytes(order, u);
  }

  lemma RunParts(a: seq<byte>, b: seq<byte>, c: seq<byte>, prefix: seq<byte>, body: seq<byte>)
    requires |a| == |prefix| && |b| == |body|
    ensures Agrees(a + b + c, prefix + body + Zeros(|c|), Repeat(true, |prefix| + |body|) + Repeat(false, |c|))
       <==> a == prefix && b == body
  {
    AgreesConcat(a + b, c, prefix + body, Zeros(|c|), Repeat(true, |prefix| + |body|), Repeat(false, |c|));
    AgreesEverywhere(a + b, prefix + body);
    if a + b == prefix + body {
      assert a == (a + b)[..|a|] == prefix;
      assert b == (a + b)[|a|..] == body;
    }
  }

  lemma GetPutU32(order: ByteOrder, bs: seq<byte>, v: u32)
    requires |bs| == 4
    ensures GetU32(order, bs) == v <==> bs == PutU32(order, v)
  {
    U32Bytes(order, v);
    BytesU32(order, bs);
  }

  lemma SliceInThree(s: seq<byte>, i: nat, j: nat, k: nat, l: nat)
    requires i <= j <= k <= l <= |s|
    ensures s[i..l] == s[i..j] + s[j..k] + s[k..l]
  {
  }

  lemma TakeRunSlices(order: ByteOrder, payload: seq<byte>, pos: nat, body: seq<byte>, pos': nat)
    requires |body| < 0x1_0000_0000
    ensures TakeRun(order, payload, pos) == Taken(Ok(body), pos')
       <==> && pos' == pos + 4 + |body| + PadLength(|body|) && pos' <= |payload|
            && payload[pos..pos + 4] == PutU32(order, |body|)
            && payload[pos + 4..pos + 4 + |body|] == body
  {
    hide PutU32, GetU32, PadLength;
    if pos + 4 <= |payload| {
      GetPutU32(order, payload[pos..pos + 4], |body|);
    }
  }

  /** A run of bytes is taken exactly when its length word and content are there, whatever the padding. */
  lemma TakeRunIff(order: ByteOrder, payload: seq<byte>, pos: nat, body: seq<byte>, pos': nat)
    requires |body| < 0x1_0000_0000
    ensures TakeRun(order, payload, pos) == Taken(Ok(body), pos')
       <==> pos <= pos' <= |payload| && Agrees(payload[pos..pos'], EncodeArray(order, body), MaskArray(body))
  {
    hide PutU32, PadLength, TakeRun;
    TakeRunSlices(order, payload, pos, body, pos');
    EncodeArrayShape(order, body);
    if pos <= pos' <= |payload| && pos' - pos == |EncodeArray(order, body)| {
      var a, b, c := payload[pos..pos + 4], payload[pos + 4..pos + 4 + |body|], payload[pos + 4 + |body|..pos'];
      SliceInThree(payload, pos, pos + 4, pos + 4 + |body|, pos');
      RunParts(a, b, c, PutU32(order, |body|), body);
    }
  }

  lemma FirstNulIs(s: seq<byte>, k: nat)
    requires k < |s| && s[k] == 0 && NulFree(s[..k])
    ensures FirstNul(s) == Some(k)
  {
    var n := FirstNul(s);
    assert forall i :: 0 <= i < k ==> s[..k][i] == s[i];
    assert forall i :: 0 <= i < n.value ==> s[..n.value][i] == s[i];
  }

  lemma TextOfSliceIff(slice: seq<byte>, s: seq<byte>)
    ensures TextOfSlice(slice) == Ok(s) <==> slice == s + [0] && NulFree(s) && ValidUtf8(s)
  {
    if slice == s + [0] && NulFree(s) {
      assert slice[..|s|] == s;
      FirstNulIs(slice, |s|);
    }
    if TextOfSlice(slice) == Ok(s) {
      assert slice == slice[..|slice| - 1] + [slice[|slice| - 1]];
    }
  }

  lemma TakeStrIff(order: ByteOrder, payload: seq<byte>, pos: nat, s: seq<byte>, pos': nat)
    ensures TakeStr(order, payload, pos) == Taken(Ok(s), pos')
       <==> && EncodableStr(s) && pos <= pos' <= |payload|
            && Agrees(payload[pos..pos'], EncodeStr(order, s), MaskStr(s))
  {
    var run := TakeRun(order, payload, pos);
    if run.result.Ok? {
      TextOfSliceIff(run.result.value, s);
    }
    if |s| + 1 < 0x1_0000_0000 {
      TextOfSliceIff(s + [0], s);
      TakeRunIff(order, payload, pos, s + [0], pos');
      assert PutU32(order, |s| + 1) + (s + [0]) == PutU32(order, |s| + 1) + s + [0];
    } else if run.result.Ok? {
      assert |run.result.value| < 0x1_0000_0000;
    }
  }

  lemma TakeNewIdIff(order: ByteOrder, payload: seq<byte>, pos: nat, id: ObjectId, pos': nat)
    ensures TakeNewId(order, payload, pos) == Taken(Ok(id), pos')
       <==> pos <= pos' <= |payload| && payload[pos..pos'] == PutU32(order, id)
  {
    TakeU32Iff(order, payload, pos, id, pos');
  }

  lemma NewObjectParts(order: ByteOrder, bytes: seq<byte>, n: NewObject)
    requires EncodableStr(n.interfaceName)
    ensures Agrees(bytes, Encode(order, NewObjectV(n)), Mask(NewObjectV(n)))
       <==> && |bytes| >= 8
            && Agrees(bytes[..|bytes| - 8], EncodeStr(order, n.interfaceName), MaskStr(n.interfaceName))
            && bytes[|bytes| - 8..|bytes| - 4] == PutU32(order, n.interfaceVersion)
            && bytes[|bytes| - 4..] == PutU32(order, n.objectId)
  {
    hide PutU32, EncodeStr, MaskStr;
    var name := n.interfaceName;
    EncodeStrShape(order, name);
    var w1, w2 := PutU32(order, n.interfaceVersion), PutU32(order, n.objectId);
    if |bytes| == |EncodeStr(order, name)| + 8 {
      var k := |bytes| - 8;
      var a, b, c := bytes[..k], bytes[k..k + 4], bytes[k + 4..];
      assert bytes == a + (b + c);
      assert Encode(order, NewObjectV(n)) == EncodeStr(order, name) + (w1 + w2);
      AgreesConcat(a, b + c, EncodeStr(order, name), w1 + w2, MaskStr(name), Repeat(true, 8));
      AgreesEverywhere(b + c, w1 + w2);
      if b + c == w1 + w2 {
        assert b == (b + c)[..4] == w1 && c == (b + c)[4..] == w2;
      }
    }
  }

  lemma TakeNewObjectLength(order: ByteOrder, payload: seq<byte>, pos: nat, n: NewObject, pos': nat)
    ensures TakeNewObject(order, payload, pos) == Taken(Ok(n), pos') ==>
              && pos' >= pos + 8
              && TakeStr(order, payload, pos) == Taken(Ok(n.interfaceName), pos' - 8)
              && TakeU32(order, payload, pos' - 8) == Taken(Ok(n.interfaceVersion), pos' - 4)
              && TakeNewId(order, payload, pos' - 4) == Taken(Ok(n.objectId), pos')
  {
    hide GetU32, PadLength, TextOfSlice;
  }

  lemma TakeNewObjectSteps(order: ByteOrder, payload: seq<byte>, pos: nat, n: NewObject, p1: nat)
    ensures TakeNewObject(order, payload, pos) == Taken(Ok(n), p1 + 8)
       <==> && EncodableStr(n.interfaceName) && pos <= p1 && p1 + 8 <= |payload|
            && Agrees(payload[pos..p1], EncodeStr(order, n.interfaceName), MaskStr(n.interfaceName))
            && payload[p1..p1 + 4] == PutU32(order, n.interfaceVersion)
            && payload[p1 + 4..p1 + 8] == PutU32(order, n.objectId)
  {
    TakeStrIff(order, payload, pos, n.interfaceName, p1);
    TakeU32Iff(order, payload, p1, n.interfaceVersion, p1 + 4);
    TakeNewIdIff(order, payload, p1 + 4, n.objectId, p1 + 8);
    TakeNewObjectLength(order, payload, pos, n, p1 + 8);
  }

  lemma TakeNewObjectIff(order: ByteOrder, payload: seq<byte>, pos: nat, n: NewObject, pos': nat)
    ensures TakeNewObject(order, payload, pos) == Taken(Ok(n), pos')
       <==> && Encodable(NewObjectV(n)) && pos <= pos' <= |payload|
            && Agrees(payload[pos..pos'], Encode(order, NewObjectV(n)), Mask(NewObjectV(n)))
  {
    hide TakeNewObject, TakeStr, TakeU32, TakeNewId, EncodeStr, MaskStr, PutU32, EncodableStr, Agrees, Encode, Mask;
    var p1, p2 := pos' - 8, pos' - 4;
    if 0 <= p1 {
      TakeNewObjectSteps(order, payload, pos, n, p1);
    } else {
      TakeNewObjectLength(order, payload, pos, n, pos');
    }
    if EncodableStr(n.interfaceName) && pos <= pos' <= |payload| {
      var bytes := payload[pos..pos'];
      NewObjectParts(order, bytes, n);
      if pos <= p1 {
        assert bytes[..|bytes| - 8] == payload[pos..p1];
        assert bytes[|bytes| - 8..|bytes| - 4] == payload[p1..p2];
        assert bytes[|bytes| - 4..] == payload[p2..pos'];
      }
    }
  }

  /** One read accepts exactly the encodings of the values of its type, up to padding. */
  lemma ReadValueIff(order: ByteOrder, rf: ReadFn, payload: seq<byte>, fds: seq<Fd>,
                     c: Cursor, v: WireValue, c': Cursor)
    requires c.pos <= |payload| && c.fd <= |fds|
    ensures ReadValue(order, rf, payload, fds, c) == Read(Ok(v), c')
       <==> Yields(rf, v) && Accepted(order, v, payload, fds, c, c')
  {
    hide TakeU32, TakeStr, TakeRun, TakeNewId, TakeNewObject, PutU32, EncodeStr, MaskStr, EncodableStr,
      EncodeArray, MaskArray, PadLength;
    if Yields(rf, v) {
      match v {
        case UintV(u) => U32Iff(order, payload, c.pos, u, c'.pos);
        case IntV(i) => U32Iff(order, payload, c.pos, ToU32(i), c'.pos);
        case FixedV(i) => U32Iff(order, payload, c.pos, ToU32(i), c'.pos);
        case ObjectV(o) => U32Iff(order, payload, c.pos, ObjectNumber(o), c'.pos);
        case StrV(s) => TakeStrIff(order, payload, c.pos, s, c'.pos);
        case ArrayV(a) =>
          if |a| < 0x1_0000_0000 {
            TakeRunIff(order, payload, c.pos, a, c'.pos);
          } else {
            TakeRunShort(order, payload, c.pos);
          }
        case NewIdV(id) =>
          TakeNewIdIff(order, payload, c.pos, id, c'.pos);
          if c.pos <= c'.pos <= |payload| {
            AgreesWord(payload[c.pos..c'.pos], PutU32(order, id));
          }
        case NewObjectV(n) => TakeNewObjectIff(order, payload, c.pos, n, c'.pos);
        case FdV(_) =>
      }
    }
  }

  lemma TakeRunShort(order: ByteOrder, payload: seq<byte>, pos: nat)
    ensures TakeRun(order, payload, pos).result.Ok? ==> |TakeRun(order, payload, pos).result.value| < 0x1_0000_0000
  {
  }

  lemma AgreesWord(bytes: seq<byte>, word: seq<byte>)
    requires |word| == 4
    ensures Agrees(bytes, word, Repeat(true, 4)) <==> bytes == word
  {
  }

  lemma U32Iff(order: ByteOrder, payload: seq<byte>, pos: nat, u: u32, pos': nat)
    ensures TakeU32(order, payload, pos) == Taken(Ok(u), pos')
       <==> pos <= pos' <= |payload| && Agrees(payload[pos..pos'], PutU32(order, u), Repeat(true, 4))
  {
    TakeU32Iff(order, payload, pos, u, pos');
    if pos <= pos' <= |payload| {
      AgreesWord(payload[pos..pos'], PutU32(order, u));
    }
  }

  // ----- whole packets -----

  lemma {:induction false} EncodeAllShape(order: ByteOrder, vs: seq<WireValue>)
    requires AllEncodable(vs)
    ensures |EncodeAll(order, vs)| % 4 == 0
    ensures ZeroOffMask(EncodeAll(order, vs), MaskAll(vs))
  {
    hide Encode, Mask, Encodable;
    if |vs| > 0 {
      EncodingShape(order, vs[0]);
      EncodeAllShape(order, vs[1..]);
    }
  }

  /** The rest of both channels is exactly the encoding of vs, up to padding. */
  predicate Remaining(order: ByteOrder, vs: seq<WireValue>, payload: seq<byte>, fds: seq<Fd>, c: Cursor) {
    && AllEncodable(vs)
    && c.pos <= |payload| && c.fd <= |fds|
    && fds[c.fd..] == AllFds(vs)
    && Agrees(payload[c.pos..], EncodeAll(order, vs), MaskAll(vs))
  }

  function Advance(order: ByteOrder, c: Cursor, v: WireValue): Cursor
    requires Encodable(v)
  {
    Cursor(c.pos + |Encode(order, v)|, c.fd + |FdsOf(v)|)
  }

  /** Peeling the first value off what remains. */
  lemma RemainingStep(order: ByteOrder, vs: seq<WireValue>, payload: seq<byte>, fds: seq<Fd>, c: Cursor)
    requires |vs| > 0 && Encodable(vs[0])
    requires c.pos <= |payload| && c.fd <= |fds|
    ensures Remaining(order, vs, payload, fds, c)
       <==> && Accepted(order, vs[0], payload, fds, c, Advance(order, c, vs[0]))
            && Remaining(order, vs[1..], payload, fds, Advance(order, c, vs[0]))
  {
    hide Encode, Mask, Encodable;
    var v, c' := vs[0], Advance(order, c, vs[0]);
    assert AllEncodable(vs) <==> AllEncodable(vs[1..]) by {
      assert forall i :: 1 <= i < |vs| ==> vs[i] == vs[1..][i - 1];
    }
    assert |Encode(order, v)| == |Mask(v)| by {
      EncodingShape(order, v);
    }
    if c'.pos <= |payload| && c'.fd <= |fds| && AllEncodable(vs) {
      var bytes, rest := payload[c.pos..c'.pos], payload[c'.pos..];
      assert payload[c.pos..] == bytes + rest;
      AgreesConcat(bytes, rest, Encode(order, v), EncodeAll(order, vs[1..]), Mask(v), MaskAll(vs[1..]));
      var f, g := fds[c.fd..c'.fd], fds[c'.fd..];
      assert fds[c.fd..] == f + g;
      if f + g == FdsOf(v) + AllFds(vs[1..]) {
        assert f == (f + g)[..|f|] == FdsOf(v) && g == (f + g)[|f|..] == AllFds(vs[1..]);
      }
    }
  }

  lemma AcceptedAdvances(order: ByteOrder, v: WireValue, payload: seq<byte>, fds: seq<Fd>, c: Cursor, c': Cursor)
    requires Accepted(order, v, payload, fds, c, c')
    ensures c' == Advance(order, c, v)
  {
    hide Encode, Mask, Encodable;
    assert |payload[c.pos..c'.pos]| == |Encode(order, v)|;
  }

  /** What decoding from a cursor accepts. */
  lemma {:induction false} DecodeFromIff(order: ByteOrder, fns: seq<ReadFn>, payload: seq<byte>, fds: seq<Fd>,
                                         c: Cursor, vs: seq<WireValue>)
    requires c.pos <= |payload| && c.fd <= |fds|
    ensures DecodeFrom(order, fns, payload, fds, c) == Ok(vs)
       <==> Typed(fns, vs) && Remaining(order, vs, payload, fds, c)
    decreases |fns|
  {
    hide ReadValue, Encode, Mask, Encodable, Yields;
    if |fns| > 0 && |vs| > 0 {
      var r := ReadValue(order, fns[0], payload, fds, c);
      assert Typed(fns, vs) <==> Yields(fns[0], vs[0]) && Typed(fns[1..], vs[1..]) by {
        assert |fns| == |vs| ==> forall i :: 1 <= i < |vs| ==> vs[i] == vs[1..][i - 1] && fns[i] == fns[1..][i - 1];
      }
      assert forall v, tail: seq<WireValue> :: [v] + tail == vs <==> v == vs[0] && tail == vs[1..] by {
        forall v, tail: seq<WireValue> | [v] + tail == vs
          ensures v == vs[0] && tail == vs[1..]
        {
          assert ([v] + tail)[0] == v && ([v] + tail)[1..] == tail;
        }
      }
      ReadValueIff(order, fns[0], payload, fds, c, vs[0], r.cursor);
      if Encodable(vs[0]) {
        var c' := Advance(order, c, vs[0]);
        RemainingStep(order, vs, payload, fds, c);
        ReadValueIff(order, fns[0], payload, fds, c, vs[0], c');
        if Accepted(order, vs[0], payload, fds, c, c') {
          DecodeFromIff(order, fns[1..], payload, fds, c', vs[1..]);
        }
        if Accepted(order, vs[0], payload, fds, c, r.cursor) {
          AcceptedAdvances(order, vs[0], payload, fds, c, r.cursor);
        }
      }
    }
  }

  /** The codec, both directions at once: decoding accepts a packet with these arguments exactly
      when its descriptors are theirs and its bytes are their encoding up to padding. */
  lemma DecodeIff(order: ByteOrder, fns: seq<ReadFn>, payload: seq<byte>, fds: seq<Fd>, vs: seq<WireValue>)
    ensures Decode(order, fns, payload, fds) == Ok(vs)
       <==> && Typed(fns, vs) && AllEncodable(vs) && fds == AllFds(vs)
            && Agrees(payload, EncodeAll(order, vs), MaskAll(vs))
  {
    DecodeFromIff(order, fns, payload, fds, Cursor(0, 0), vs);
    assert payload[0..] == payload && fds[0..] == fds;
  }

  /** Encode, then decode. */
  lemma RoundTrip(order: ByteOrder, fns: seq<ReadFn>, vs: seq<WireValue>)
    requires Typed(fns, vs) && AllEncodable(vs)
    ensures Decode(order, fns, EncodeAll(order, vs), AllFds(vs)) == Ok(vs)
  {
    EncodeAllShape(order, vs);
    DecodeIff(order, fns, EncodeAll(order, vs), AllFds(vs), vs);
  }

  /** Decode, then encode: the same bytes with padding cleared, so acceptance is unique up to padding. */
  lemma Reencode(order: ByteOrder, fns: seq<ReadFn>, payload: seq<byte>, fds: seq<Fd>)
    requires Decode(order, fns, payload, fds).Ok?
    ensures var vs := Decode(order, fns, payload, fds).value;
            && AllEncodable(vs) && AllFds(vs) == fds
            && |EncodeAll(order, vs)| == |payload| == |MaskAll(vs)|
            && forall i :: 0 <= i < |payload| ==>
                 EncodeAll(order, vs)[i] == if MaskAll(vs)[i] then payload[i] else 0
  {
    var vs := Decode(order, fns, payload, fds).value;
    DecodeIff(order, fns, payload, fds, vs);
    EncodeAllShape(order, vs);
  }

  /** Two argument lists of one signature with the same bytes and descriptors are the same list. */
  lemma EncodingInjective(order: ByteOrder, fns: seq<ReadFn>, vs: seq<WireValue>, ws: seq<WireValue>)
    requires Typed(fns, vs) && AllEncodable(vs) && Typed(fns, ws) && AllEncodable(ws)
    requires EncodeAll(order, vs) == EncodeAll(order, ws) && AllFds(vs) == AllFds(ws)
    ensures vs == ws
  {
    RoundTrip(order, fns, vs);
    RoundTrip(order, fns, ws);
  }

  // ----- strings of wire length 0 -----

  /** The read functions that start with a string. */
  predicate StartsWithString(rf: ReadFn) {
    rf == ReadStr || rf == ReadNewIdUnknownInterface
  }

  predicate ZeroWordAt(payload: seq<byte>, pos: nat) {
    pos + 4 <= |payload| && payload[pos..pos + 4] == [0, 0, 0, 0]
  }

  lemma ZeroWord(order: ByteOrder, bs: seq<byte>)
    requires |bs| == 4
    ensures GetU32(order, bs) == 0 <==> bs == [0, 0, 0, 0]
  {
    GetPutU32(order, bs, 0);
    assert PutU32(order, 0) == [0, 0, 0, 0];
  }

  lemma TextUnderflowIff(slice: seq<byte>)
    ensures TextOfSlice(slice) == Err(StringLengthUnderflow) <==> |slice| == 0
  {
    hide FirstNul, ValidUtf8;
  }

  /** `read_str` subtracts 1 from 0 exactly on a zero length word. */
  lemma TakeStrUnderflowIff(order: ByteOrder, payload: seq<byte>, pos: nat)
    ensures TakeStr(order, payload, pos).result == Err(StringLengthUnderflow) <==> ZeroWordAt(payload, pos)
  {
    hide TextOfSlice, GetU32;
    var run := TakeRun(order, payload, pos);
    if run.result.Ok? {
      TextUnderflowIff(run.result.value);
    }
    if pos + 4 <= |payload| {
      ZeroWord(order, payload[pos..pos + 4]);
    }
  }

  /** One read function underflows exactly if it starts with a string and meets a zero length word. */
  lemma ReadValueUnderflowIff(order: ByteOrder, rf: ReadFn, payload: seq<byte>, fds: seq<Fd>, c: Cursor)
    ensures ReadValue(order, rf, payload, fds, c).result == Err(StringLengthUnderflow)
       <==> StartsWithString(rf) && ZeroWordAt(payload, c.pos)
  {
    hide TakeStr, GetU32, PadLength;
    TakeStrUnderflowIff(order, payload, c.pos);
  }

  function AdvanceAll(order: ByteOrder, c: Cursor, vs: seq<WireValue>): Cursor
    requires AllEncodable(vs)
  {
    Cursor(c.pos + |EncodeAll(order, vs)|, c.fd + |AllFds(vs)|)
  }

  /** What follows the cursor begins with the encoding of vs, up to padding. */
  predicate Begins(order: ByteOrder, vs: seq<WireValue>, payload: seq<byte>, fds: seq<Fd>, c: Cursor) {
    && AllEncodable(vs)
    && var end := AdvanceAll(order, c, vs);
       && end.pos <= |payload| && end.fd <= |fds|
       && Remaining(order, vs, payload[..end.pos], fds[..end.fd], c)
  }

  /** After the arguments vs, where the next one should start with a string, comes a zero word. */
  predicate UnderflowAfter(order: ByteOrder, fns: seq<ReadFn>, vs: seq<WireValue>, payload: seq<byte>,
                           fds: seq<Fd>, c: Cursor)
  {
    && |vs| < |fns| && Typed(fns[..|vs|], vs) && StartsWithString(fns[|vs|])
    && Begins(order, vs, payload, fds, c)
    && ZeroWordAt(payload, AdvanceAll(order, c, vs).pos)
  }

  lemma BeginsStep(order: ByteOrder, vs: seq<WireValue>, payload: seq<byte>, fds: seq<Fd>, c: Cursor)
    requires |vs| > 0 && Encodable(vs[0])
    requires c.pos <= |payload| && c.fd <= |fds|
    ensures Begins(order, vs, payload, fds, c)
       <==> && Accepted(order, vs[0], payload, fds, c, Advance(order, c, vs[0]))
            && Begins(order, vs[1..], payload, fds, Advance(order, c, vs[0]))
  {
    hide Encode, Mask, Encodable, Agrees, Remaining;
    assert AllEncodable(vs) <==> AllEncodable(vs[1..]) by {
      assert forall i :: 1 <= i < |vs| ==> vs[i] == vs[1..][i - 1];
    }
    if AllEncodable(vs) {
      var c', end := Advance(order, c, vs[0]), AdvanceAll(order, c, vs);
      assert end == AdvanceAll(order, c', vs[1..]);
      if end.pos <= |payload| && end.fd <= |fds| {
        RemainingStep(order, vs, payload[..end.pos], fds[..end.fd], c);
        assert payload[..end.pos][c.pos..c'.pos] == payload[c.pos..c'.pos];
        assert fds[..end.fd][c.fd..c'.fd] == fds[c.fd..c'.fd];
      }
    }
  }

  lemma BeginsNothing(order: ByteOrder, payload: seq<byte>, fds: seq<Fd>, c: Cursor)
    requires c.pos <= |payload| && c.fd <= |fds|
    ensures Begins(order, [], payload, fds, c) && AdvanceAll(order, c, []) == c
  {
  }

  lemma UnderflowStep(order: ByteOrder, fns: seq<ReadFn>, vs: seq<WireValue>, payload: seq<byte>,
                      fds: seq<Fd>, c: Cursor)
    requires |vs| > 0 && |fns| > 0 && c.pos <= |payload| && c.fd <= |fds|
    ensures UnderflowAfter(order, fns, vs, payload, fds, c)
       <==> && Yields(fns[0], vs[0]) && Encodable(vs[0])
            && Accepted(order, vs[0], payload, fds, c, Advance(order, c, vs[0]))
            && UnderflowAfter(order, fns[1..], vs[1..], payload, fds, Advance(order, c, vs[0]))
  {
    hide Encode, Mask, Encodable, Yields, Begins, Accepted, ZeroWordAt;
    if Encodable(vs[0]) {
      BeginsStep(order, vs, payload, fds, c);
    }
    if |vs| < |fns| {
      assert fns[1..][|vs| - 1] == fns[|vs|] && fns[1..][..|vs| - 1] == fns[..|vs|][1..];
      TypedStep(fns[..|vs|], vs);
    }
    BeginsEncodable(order, vs, payload, fds, c);
  }

  lemma TypedStep(fns: seq<ReadFn>, vs: seq<WireValue>)
    requires |fns| == |vs| > 0
    ensures Typed(fns, vs) <==> Yields(fns[0], vs[0]) && Typed(fns[1..], vs[1..])
  {
    hide Yields;
    assert forall i :: 1 <= i < |vs| ==> vs[i] == vs[1..][i - 1] && fns[i] == fns[1..][i - 1];
  }

  lemma BeginsEncodable(order: ByteOrder, vs: seq<WireValue>, payload: seq<byte>, fds: seq<Fd>, c: Cursor)
    ensures Begins(order, vs, payload, fds, c) && |vs| > 0 ==> Encodable(vs[0])
  {
    hide Encode, Mask, Encodable;
  }

  lemma {:induction false} DecodeFromUnderflowIff(order: ByteOrder, fns: seq<ReadFn>, payload: seq<byte>,
                                                  fds: seq<Fd>, c: Cursor)
    requires c.pos <= |payload| && c.fd <= |fds|
    ensures DecodeFrom(order, fns, payload, fds, c) == Err(StringLengthUnderflow)
       <==> exists vs :: UnderflowAfter(order, fns, vs, payload, fds, c)
    decreases |fns|
  {
    hide ReadValue, Encode, Mask, Encodable, Yields, UnderflowAfter, Accepted, Finish;
    if |fns| == 0 {
      NoReadNoUnderflow(order, payload, fds, c);
    } else {
      var r := ReadValue(order, fns[0], payload, fds, c);
      ReadValueUnderflowIff(order, fns[0], payload, fds, c);
      UnderflowAtOnce(order, fns, payload, fds, c);
      if r.result.Ok? {
        var v := r.result.value;
        ReadValueIff(order, fns[0], payload, fds, c, v, r.cursor);
        AcceptedAdvances(order, v, payload, fds, c, r.cursor);
        AcceptedInside(order, v, payload, fds, c, r.cursor);
        DecodeFromUnderflowIff(order, fns[1..], payload, fds, r.cursor);
        if vs :| UnderflowAfter(order, fns[1..], vs, payload, fds, r.cursor) {
          assert ([v] + vs)[1..] == vs;
          UnderflowStep(order, fns, [v] + vs, payload, fds, c);
        }
      }
      if vs :| UnderflowAfter(order, fns, vs, payload, fds, c) && |vs| > 0 {
        UnderflowStep(order, fns, vs, payload, fds, c);
        ReadValueIff(order, fns[0], payload, fds, c, vs[0], Advance(order, c, vs[0]));
      }
    }
  }

  lemma AcceptedInside(order: ByteOrder, v: WireValue, payload: seq<byte>, fds: seq<Fd>, c: Cursor, c': Cursor)
    requires Accepted(order, v, payload, fds, c, c')
    ensures Encodable(v) && c'.pos <= |payload| && c'.fd <= |fds|
  {
  }

  lemma NoReadNoUnderflow(order: ByteOrder, payload: seq<byte>, fds: seq<Fd>, c: Cursor)
    ensures DecodeFrom(order, [], payload, fds, c) != Err(StringLengthUnderflow)
    ensures forall vs :: !UnderflowAfter(order, [], vs, payload, fds, c)
  {
  }

  lemma UnderflowAtOnce(order: ByteOrder, fns: seq<ReadFn>, payload: seq<byte>, fds: seq<Fd>, c: Cursor)
    requires |fns| > 0 && c.pos <= |payload| && c.fd <= |fds|
    ensures forall vs :: |vs| == 0 ==>
              (UnderflowAfter(order, fns, vs, payload, fds, c)
               <==> StartsWithString(fns[0]) && ZeroWordAt(payload, c.pos))
    ensures StartsWithString(fns[0]) && ZeroWordAt(payload, c.pos) ==> UnderflowAfter(order, fns, [], payload, fds, c)
  {
    hide Begins, AdvanceAll;
    BeginsNothing(order, payload, fds, c);
    assert forall vs: seq<WireValue> :: |vs| == 0 ==> vs == [];
  }

  /** A decoder underflows exactly on the packets that begin with some of the arguments, up to
      padding, and have a zero word where the next one's string should start. */
  lemma DecodeUnderflowIff(order: ByteOrder, fns: seq<ReadFn>, payload: seq<byte>, fds: seq<Fd>)
    ensures Decode(order, fns, payload, fds) == Err(StringLengthUnderflow)
       <==> exists vs :: UnderflowAfter(order, fns, vs, payload, fds, Cursor(0, 0))
  {
    DecodeFromUnderflowIff(order, fns, payload, fds, Cursor(0, 0));
  }

  // ----- the wire format, value by value -----

  /** The standard's wire format, each type in terms of simpler ones. */
  predicate InWireFormat(order: ByteOrder, v: WireValue)
    requires Encodable(v)
  {
    var bytes := Encode(order, v);
    match v
    case UintV(u) => bytes == PutU32(order, u)
    case IntV(i) => bytes == Encode(order, UintV(if i >= 0 then i else 0x1_0000_0000 + i))
    case FixedV(i) => bytes == Encode(order, IntV(i))
    case ObjectV(o) => if o.None? then bytes == [0, 0, 0, 0] else bytes == Encode(order, UintV(o.value))
    case NewIdV(id) => bytes == Encode(order, UintV(id))
    case StrV(s) => bytes == Encode(order, ArrayV(s + [0]))
    case NewObjectV(n) =>
      bytes == EncodeAll(order, [StrV(n.interfaceName), UintV(n.interfaceVersion), UintV(n.objectId)])
    case ArrayV(a) =>
      && |a| + 4 <= |bytes| < |a| + 8 && |bytes| % 4 == 0
      && bytes[..4] == PutU32(order, |a|) && bytes[4..4 + |a|] == a
      && forall i :: 4 + |a| <= i < |bytes| ==> bytes[i] == 0
    case FdV(_) => bytes == []
  }

  /** Signed words are two's complement, the null object is zero, object IDs are their number, a string is
      the array of its bytes with the terminator, an array is its length and its bytes with zeros up to a
      multiple of four, a new object is three arguments, descriptors have no bytes. */
  lemma WireFormat(order: ByteOrder, v: WireValue)
    requires Encodable(v)
    ensures InWireFormat(order, v)
  {
    hide EncodeStr, EncodeArray, EncodableStr, PutU32;
    match v
    case StrV(s) => StrFormat(order, s);
    case ArrayV(a) => ArrayFormat(order, a);
    case NewObjectV(n) => NewObjectFormat(order, n);
    case ObjectV(_) => ZeroIsZeros(order);
    case _ =>
  }

  lemma ZeroIsZeros(order: ByteOrder)
    ensures PutU32(order, 0) == [0, 0, 0, 0]
  {
  }

  lemma StrFormat(order: ByteOrder, s: seq<byte>)
    requires EncodableStr(s)
    ensures Encode(order, StrV(s)) == Encode(order, ArrayV(s + [0]))
  {
    hide PutU32, ValidUtf8;
    assert PutU32(order, |s| + 1) + s + [0] == PutU32(order, |s| + 1) + (s + [0]);
  }

  lemma ArrayFormat(order: ByteOrder, a: seq<byte>)
    requires |a| < 0x1_0000_0000
    ensures InWireFormat(order, ArrayV(a))
  {
    hide PutU32;
  }

  lemma NewObjectFormat(order: ByteOrder, n: NewObject)
    requires EncodableStr(n.interfaceName)
    ensures Encode(order, NewObjectV(n))
         == EncodeAll(order, [StrV(n.interfaceName), UintV(n.interfaceVersion), UintV(n.objectId)])
  {
    hide EncodeStr, PutU32, EncodableStr;
    var vs := [StrV(n.interfaceName), UintV(n.interfaceVersion), UintV(n.objectId)];
    assert vs[1..] == [UintV(n.interfaceVersion), UintV(n.objectId)] && vs[1..][1..] == [UintV(n.objectId)];
    assert EncodeAll(order, vs[1..][1..][1..]) == [];
    assert EncodeAll(order, vs[1..][1..]) == PutU32(order, n.objectId);
  }

  // ----- how reading a string fails -----

  /** The bytes that the length word at `pos` counts; needs the length word to be there. */
  function CountedBytes(order: ByteOrder, payload: seq<byte>, pos: nat): nat
    requires pos + 4 <= |payload|
  {
    GetU32(order, payload[pos..pos + 4])
  }

  /** Where the run at `pos` ends, as far as its length is known. */
  function RunEnd(order: ByteOrder, payload: seq<byte>, pos: nat): nat {
    if pos + 4 > |payload| then pos + 4
    else
      var n := CountedBytes(order, payload, pos);
      pos + 4 + n + PadLength(n)
  }

  /** A string is refused exactly for one of four reasons: it does not fit, it has no bytes, its first
      NUL is not its last byte, or what precedes the NUL is not text. */
  lemma TakeStrFails(order: ByteOrder, payload: seq<byte>, pos: nat)
    ensures var r := TakeStr(order, payload, pos).result;
            if RunEnd(order, payload, pos) > |payload| then
              r == Err(FieldOutOfBounds(RunEnd(order, payload, pos), |payload|))
            else
              var n := CountedBytes(order, payload, pos);
              var slice := payload[pos + 4..pos + 4 + n];
              if n == 0 then r == Err(StringLengthUnderflow)
              else if slice[n - 1] != 0 || !NulFree(slice[..n - 1]) then
                r == Err(StringMisplacedNul(FirstNul(slice), n - 1))
              else if !ValidUtf8(slice[..n - 1]) then r == Err(StringInvalidUtf8(slice[..n - 1]))
              else r == Ok(slice[..n - 1])
  {
    hide GetU32, ValidUtf8, PadLength, FirstNul;
    if RunEnd(order, payload, pos) <= |payload| {
      var n := CountedBytes(order, payload, pos);
      var slice := payload[pos + 4..pos + 4 + n];
      if n > 0 {
        LastIsFirstNulIff(slice);
      }
    }
  }

  lemma LastIsFirstNulIff(slice: seq<byte>)
    requires |slice| > 0
    ensures FirstNul(slice) == Some(|slice| - 1) <==> slice[|slice| - 1] == 0 && NulFree(slice[..|slice| - 1])
  {
    hide FirstNul;
    if slice[|slice| - 1] == 0 && NulFree(slice[..|slice| - 1]) {
      FirstNulIs(slice, |slice| - 1);
    }
  }
}
