/** The packet buffer and its cursor: whale-land/src/packet.rs. */
module Packets {
  import opened Numbers
  import opened Outcomes
  import opened Utf8

  // ----- values that travel in packets -----

  /** The byte order of the host, which both peers of a local socket share. */
  datatype ByteOrder = LittleEndian | BigEndian

  type ObjectId = x: int | 0 < x < 0x1_0000_0000 witness 1
  type Fd = i32

  datatype NewObject = NewObject(objectId: ObjectId, interfaceName: seq<byte>, interfaceVersion: u32)

  datatype WireValue =
    | UintV(uint: u32)
    | IntV(int_: i32)
    | FixedV(inner: i32)
    | StrV(text: seq<byte>)
    | ArrayV(bytes: seq<byte>)
    | ObjectV(object_: Option<ObjectId>)
    | NewIdV(newId: ObjectId)
    | NewObjectV(newObject: NewObject)
    | FdV(fd: Fd)

  datatype ReadFn =
    | ReadUint | ReadInt | ReadFixed | ReadStr | ReadArray | ReadObject
    | ReadNewIdKnownInterface | ReadNewIdUnknownInterface | ReadFd

  datatype WriteFn =
    | PushUint | PushInt | PushFixed | PushStr | PushArray | PushObject
    | PushNewIdKnownInterface | PushNewIdUnknownInterface | PushFd

  datatype PacketData = PacketData(objectId: ObjectId, opcode: u16, payload: seq<byte>, fds: seq<Fd>)

  datatype Error =
    | PacketTooLong(actual: nat, maximum: nat)
    | PacketTooShort(actual: nat, minimum: nat)
    | FieldOutOfBounds(actual: nat, maximum: nat)
    | FdOutOfBounds(total: nat)
    | StringMisplacedNul(nulAt: Option<nat>, expected: nat)
      // A string of wire length 0 has no last byte: the subtraction panics, or wraps around and is
      // then reported as a misplaced NUL, depending on how the program was built.
    | StringLengthUnderflow
    | StringInvalidUtf8(data: seq<byte>)
    | IncompleteRead(readBytes: nat, totalBytes: nat, readFds: nat, totalFds: nat)
    | ZeroObjectId

  // ----- fixed-width integers -----

  /** `u32::to_ne_bytes` */
  function PutU32(order: ByteOrder, v: u32): (bs: seq<byte>)
    ensures |bs| == 4
  {
    var b3, b2, b1, b0 := v / 0x100_0000, v / 0x1_0000 % 0x100, v / 0x100 % 0x100, v % 0x100;
    match order
    case LittleEndian => [b0, b1, b2, b3]
    case BigEndian => [b3, b2, b1, b0]
  }

  function Join(b3: int, b2: int, b1: int, b0: int): u32
    requires 0 <= b3 < 0x100 && 0 <= b2 < 0x100 && 0 <= b1 < 0x100 && 0 <= b0 < 0x100
  {
    b0 + 0x100 * b1 + 0x1_0000 * b2 + 0x100_0000 * b3
  }

  /** `u32::from_ne_bytes` */
  function GetU32(order: ByteOrder, bs: seq<byte>): u32
    requires |bs| == 4
  {
    match order
    case LittleEndian => Join(bs[3], bs[2], bs[1], bs[0])
    case BigEndian => Join(bs[0], bs[1], bs[2], bs[3])
  }

  /** Two's complement. */
  function ToU32(i: i32): u32 {
    if i < 0 then i + 0x1_0000_0000 else i
  }

  function ToI32(u: u32): i32 {
    if u >= 0x8000_0000 then u - 0x1_0000_0000 else u
  }

  lemma U32Bytes(order: ByteOrder, v: u32)
    ensures GetU32(order, PutU32(order, v)) == v
  {
    var q := v / 0x100;
    var r := q / 0x100;
    assert v == 0x100 * q + v % 0x100 && q == 0x100 * r + q % 0x100 && r == 0x100 * (r / 0x100) + r % 0x100;
    assert r == v / 0x1_0000 && r / 0x100 == v / 0x100_0000;
  }

  lemma BytesU32(order: ByteOrder, bs: seq<byte>)
    requires |bs| == 4
    ensures PutU32(order, GetU32(order, bs)) == bs
  {
    match order
    case LittleEndian => SplitJoin(bs[3], bs[2], bs[1], bs[0]);
    case BigEndian => SplitJoin(bs[0], bs[1], bs[2], bs[3]);
  }

  function Reversed(bs: seq<byte>): (r: seq<byte>)
    ensures |r| == |bs|
  {
    seq(|bs|, i requires 0 <= i < |bs| => bs[|bs| - 1 - i])
  }

  /** The word is the number's four base-256 digits, most significant first or last. */
  lemma WordIsDigits(order: ByteOrder, v: u32)
    ensures PutU32(order, v) == if order == BigEndian then Digits(0x100, v, 4) else Reversed(Digits(0x100, v, 4))
  {
    hide Digits;
    var q := v / 0x100;
    DigitsStep(v, 4);
    DigitsStep(v / 0x100, 3);
    DigitsStep(v / 0x1_0000, 2);
    DigitsStep(v / 0x100_0000, 1);
    assert v / 0x100 / 0x100 == v / 0x1_0000 && v / 0x1_0000 / 0x100 == v / 0x100_0000;
    assert Digits(0x100, v, 4) == [v / 0x100_0000, v / 0x1_0000 % 0x100, v / 0x100 % 0x100, v % 0x100];
  }

  lemma DigitsStep(n: nat, len: nat)
    requires len > 0
    ensures Digits(0x100, n, len) == Digits(0x100, n / 0x100, len - 1) + [n % 0x100]
    ensures |Digits(0x100, n, 0)| == 0
  {
  }

  lemma SplitJoin(b3: byte, b2: byte, b1: byte, b0: byte)
    ensures var v := Join(b3, b2, b1, b0);
            v % 0x100 == b0 && v / 0x100 % 0x100 == b1 && v / 0x1_0000 % 0x100 == b2 && v / 0x100_0000 == b3
  {
    var v := Join(b3, b2, b1, b0);
    assert v / 0x100 == b1 + 0x100 * b2 + 0x1_0000 * b3;
    assert v / 0x1_0000 == b2 + 0x100 * b3;
  }

  // ----- what a value looks like on the wire -----

  /** Number of padding bytes that bring a length to a multiple of 4. */
  function PadLength(len: nat): (n: nat)
    ensures n < 4 && (len + n) % 4 == 0
  {
    (4 - len % 4) % 4
  }

  lemma PadLengthIs(len: nat)
    ensures PadLength(len) == (4 - len % 4) % 4
  {
  }

  predicate NulFree(s: seq<byte>) {
    forall i :: 0 <= i < |s| ==> s[i] != 0
  }

  /** The strings that can be pushed: valid text without NUL whose terminated length fits 32 bits. */
  predicate EncodableStr(s: seq<byte>) {
    NulFree(s) && ValidUtf8(s) && |s| + 1 < 0x1_0000_0000
  }

  predicate Encodable(v: WireValue) {
    match v
    case StrV(s) => EncodableStr(s)
    case ArrayV(a) => |a| < 0x1_0000_0000
    case NewObjectV(n) => EncodableStr(n.interfaceName)
    case _ => true
  }

  function EncodeStr(order: ByteOrder, s: seq<byte>): seq<byte>
    requires |s| + 1 < 0x1_0000_0000
  {
    PutU32(order, |s| + 1) + s + [0] + Zeros(PadLength(|s| + 1))
  }

  function EncodeArray(order: ByteOrder, a: seq<byte>): seq<byte>
    requires |a| < 0x1_0000_0000
  {
    PutU32(order, |a|) + a + Zeros(PadLength(|a|))
  }

  function ObjectNumber(o: Option<ObjectId>): u32 {
    match o
    case Some(id) => id
    case None => 0
  }

  function Encode(order: ByteOrder, v: WireValue): seq<byte>
    requires Encodable(v)
  {
    match v
    case UintV(u) => PutU32(order, u)
    case IntV(i) => PutU32(order, ToU32(i))
    case FixedV(i) => PutU32(order, ToU32(i))
    case StrV(s) => EncodeStr(order, s)
    case ArrayV(a) => EncodeArray(order, a)
    case ObjectV(o) => PutU32(order, ObjectNumber(o))
    case NewIdV(id) => PutU32(order, id)
    case NewObjectV(n) =>
      EncodeStr(order, n.interfaceName) + PutU32(order, n.interfaceVersion) + PutU32(order, n.objectId)
    case FdV(_) => []
  }

  function FdsOf(v: WireValue): seq<Fd> {
    if v.FdV? then [v.fd] else []
  }

  /** Which write function takes which value. */
  predicate Accepts(wf: WriteFn, v: WireValue) {
    match v
    case UintV(_) => wf == PushUint
    case IntV(_) => wf == PushInt
    case FixedV(_) => wf == PushFixed
    case StrV(_) => wf == PushStr
    case ArrayV(_) => wf == PushArray
    case ObjectV(_) => wf == PushObject
    case NewIdV(_) => wf == PushNewIdKnownInterface
    case NewObjectV(_) => wf == PushNewIdUnknownInterface
    case FdV(_) => wf == PushFd
  }

  /** Which read function yields which value. */
  predicate Yields(rf: ReadFn, v: WireValue) {
    match v
    case UintV(_) => rf == ReadUint
    case IntV(_) => rf == ReadInt
    case FixedV(_) => rf == ReadFixed
    case StrV(_) => rf == ReadStr
    case ArrayV(_) => rf == ReadArray
    case ObjectV(_) => rf == ReadObject
    case NewIdV(_) => rf == ReadNewIdKnownInterface
    case NewObjectV(_) => rf == ReadNewIdUnknownInterface
    case FdV(_) => rf == ReadFd
  }

  // ----- what the cursor reads -----

  /** The outcome of one read from the byte channel and where it leaves the cursor. */
  datatype Taken<+T> = Taken(result: Result<T, Error>, pos: nat)

  function TakeU32(order: ByteOrder, payload: seq<byte>, pos: nat): Taken<u32> {
    if pos + 4 > |payload| then Taken(Err(FieldOutOfBounds(pos + 4, |payload|)), pos)
    else Taken(Ok(GetU32(order, payload[pos..pos + 4])), pos + 4)
  }

  function FirstNul(s: seq<byte>): (at: Option<nat>)
    ensures at.None? ==> NulFree(s)
    ensures at.Some? ==> at.value < |s| && s[at.value] == 0 && NulFree(s[..at.value])
  {
    if |s| == 0 then None
    else if s[0] == 0 then Some(0)
    else
      match FirstNul(s[1..])
      case None => None
      case Some(i) => assert s[..i + 1] == [s[0]] + s[1..][..i]; Some(i + 1)
  }

  /** The text held by a string slice that includes its terminator. */
  function TextOfSlice(slice: seq<byte>): Result<seq<byte>, Error> {
    if |slice| == 0 then Err(StringLengthUnderflow)
    else if FirstNul(slice) != Some(|slice| - 1) then
      Err(StringMisplacedNul(FirstNul(slice), |slice| - 1))
    else if !ValidUtf8(slice[..|slice| - 1]) then Err(StringInvalidUtf8(slice[..|slice| - 1]))
    else Ok(slice[..|slice| - 1])
  }

  /** A length-prefixed, padded run of bytes. */
  function TakeRun(order: ByteOrder, payload: seq<byte>, pos: nat): (t: Taken<seq<byte>>)
    ensures t.result.Ok? ==> t.pos <= |payload| && t.pos == pos + 4 + |t.result.value| + PadLength(|t.result.value|)
    ensures t.result.Err? ==> t.pos == pos
  {
    if pos + 4 > |payload| then Taken(Err(FieldOutOfBounds(pos + 4, |payload|)), pos)
    else
      var len := GetU32(order, payload[pos..pos + 4]);
      var next := pos + 4 + len + PadLength(len);
      if next > |payload| then Taken(Err(FieldOutOfBounds(next, |payload|)), pos)
      else Taken(Ok(payload[pos + 4..pos + 4 + len]), next)
  }

  function TakeStr(order: ByteOrder, payload: seq<byte>, pos: nat): Taken<seq<byte>> {
    var run := TakeRun(order, payload, pos);
    match run.result
    case Err(_) => run
    case Ok(slice) => Taken(TextOfSlice(slice), run.pos)
  }

  function ToObject(u: u32): Option<ObjectId> {
    if u == 0 then None else Some(u)
  }

  function TakeNewId(order: ByteOrder, payload: seq<byte>, pos: nat): Taken<ObjectId> {
    var t := TakeU32(order, payload, pos);
    match t.result
    case Err(e) => Taken(Err(e), t.pos)
    case Ok(u) => Taken(if u == 0 then Err(ZeroObjectId) else Ok(u), t.pos)
  }

  function TakeNewObject(order: ByteOrder, payload: seq<byte>, pos: nat): Taken<NewObject> {
    var name := TakeStr(order, payload, pos);
    match name.result
    case Err(e) => Taken(Err(e), name.pos)
    case Ok(interfaceName) =>
      var version := TakeU32(order, payload, name.pos);
      match version.result
      case Err(e) => Taken(Err(e), version.pos)
      case Ok(interfaceVersion) =>
        var id := TakeNewId(order, payload, version.pos);
        match id.result
        case Err(e) => Taken(Err(e), id.pos)
        case Ok(objectId) => Taken(Ok(NewObject(objectId, interfaceName, interfaceVersion)), id.pos)
  }

  /** Position in both channels: payload bytes and file descriptors. */
  datatype Cursor = Cursor(pos: nat, fd: nat)
  datatype Read = Read(result: Result<WireValue, Error>, cursor: Cursor)

  function Wrap<T>(t: Taken<T>, fd: nat, wrap: T -> WireValue): Read {
    match t.result
    case Ok(x) => Read(Ok(wrap(x)), Cursor(t.pos, fd))
    case Err(e) => Read(Err(e), Cursor(t.pos, fd))
  }

  /** One read function applied at a cursor. */
  function ReadValue(order: ByteOrder, rf: ReadFn, payload: seq<byte>, fds: seq<Fd>, c: Cursor): Read {
    match rf
    case ReadUint => Wrap(TakeU32(order, payload, c.pos), c.fd, (u: u32) => UintV(u))
    case ReadInt => Wrap(TakeU32(order, payload, c.pos), c.fd, (u: u32) => IntV(ToI32(u)))
    case ReadFixed => Wrap(TakeU32(order, payload, c.pos), c.fd, (u: u32) => FixedV(ToI32(u)))
    case ReadStr => Wrap(TakeStr(order, payload, c.pos), c.fd, (s: seq<byte>) => StrV(s))
    case ReadArray => Wrap(TakeRun(order, payload, c.pos), c.fd, (a: seq<byte>) => ArrayV(a))
    case ReadObject => Wrap(TakeU32(order, payload, c.pos), c.fd, (u: u32) => ObjectV(ToObject(u)))
    case ReadNewIdKnownInterface => Wrap(TakeNewId(order, payload, c.pos), c.fd, (id: ObjectId) => NewIdV(id))
    case ReadNewIdUnknownInterface =>
      Wrap(TakeNewObject(order, payload, c.pos), c.fd, (n: NewObject) => NewObjectV(n))
    case ReadFd =>
      if c.fd >= |fds| then Read(Err(FdOutOfBounds(|fds|)), c)
      else Read(Ok(FdV(fds[c.fd])), Cursor(c.pos, c.fd + 1))
  }

  /** The completeness check. */
  function Finish(payload: seq<byte>, fds: seq<Fd>, c: Cursor): Result<(), Error> {
    if c.pos >= |payload| && c.fd >= |fds| then Ok(())
    else Err(IncompleteRead(c.pos, |payload|, c.fd, |fds|))
  }

  // ----- the header -----

  const MAX_PACKET_SIZE := 0xFFFF

  /** The second header word: size in the upper half, opcode in the lower. */
  function SizeAndOpcode(size: u16, opcode: u16): nat {
    BitOr(size * 0x1_0000, opcode)
  }

  lemma SizeAndOpcodeIsSum(size: u16, opcode: u16)
    ensures SizeAndOpcode(size, opcode) == size * 0x1_0000 + opcode
    ensures SizeAndOpcode(size, opcode) < 0x1_0000_0000
  {
    SmallPowersOfTwo();
    BitOrShifted(size, 16, opcode);
  }

  function Serialize(order: ByteOrder, p: PacketData): Result<seq<byte>, Error> {
    var total := 8 + |p.payload|;
    if total > MAX_PACKET_SIZE then Err(PacketTooLong(total, MAX_PACKET_SIZE))
    else
      SizeAndOpcodeIsSum(total, p.opcode);
      Ok(PutU32(order, p.objectId) + PutU32(order, SizeAndOpcode(total, p.opcode)) + p.payload)
  }

  /** A packet can be written exactly if its payload leaves room for the header, and this is its layout:
      the target's word, a word with the total size in the upper and the opcode in the lower half, and
      the payload. */
  lemma SerializesIff(order: ByteOrder, p: PacketData)
    ensures Serialize(order, p).Ok? <==> |p.payload| <= 65527
    ensures Serialize(order, p).Ok? ==>
              var bytes := Serialize(order, p).value;
              && |bytes| == 8 + |p.payload| && bytes[8..] == p.payload
              && GetU32(order, bytes[0..4]) == p.objectId
              && GetU32(order, bytes[4..8]) == |bytes| * 65536 + p.opcode
  {
    hide PutU32, GetU32, SizeAndOpcode;
    if Serialize(order, p).Ok? {
      var bytes, size := Serialize(order, p).value, 8 + |p.payload|;
      SizeAndOpcodeIsSum(size, p.opcode);
      U32Bytes(order, p.objectId);
      U32Bytes(order, SizeAndOpcode(size, p.opcode));
      assert bytes[0..4] == PutU32(order, p.objectId);
      assert bytes[4..8] == PutU32(order, SizeAndOpcode(size, p.opcode));
    }
  }
}
