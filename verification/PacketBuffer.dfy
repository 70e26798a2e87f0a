/** The mutable packet buffer and its reader: whale-land/src/packet.rs. Every method is tied to the
    encoding and cursor functions of `Packets`. */
module PacketBuffer {
  import opened Numbers
  import opened Outcomes
  import opened Utf8
  import opened Packets

  class Packet {
    const order: ByteOrder
    var objectId: ObjectId
    var opcode: u16
    var payload: seq<byte>
    var fds: seq<Fd>

    function View(): PacketData
      reads this
    {
      PacketData(objectId, opcode, payload, fds)
    }

    constructor (order: ByteOrder, objectId: ObjectId, opcode: u16)
      ensures this.order == order && View() == PacketData(objectId, opcode, [], [])
    {
      this.order, this.objectId, this.opcode, this.payload, this.fds := order, objectId, opcode, [], [];
    }

    constructor FromExisting(order: ByteOrder, data: PacketData)
      ensures this.order == order && View() == data
    {
      this.order, this.objectId, this.opcode := order, data.objectId, data.opcode;
      this.payload, this.fds := data.payload, data.fds;
    }

    method PushUint(value: u32)
      modifies this`payload
      ensures payload == old(payload) + Encode(order, UintV(value))
    {
      var bs := PutU32(order, value);
      payload := payload + bs;
    }

    method PushInt(value: i32)
      modifies this`payload
      ensures payload == old(payload) + Encode(order, IntV(value))
    {
      var bs := PutU32(order, ToU32(value));
      payload := payload + bs;
    }

    method PushFixed(inner: i32)
      modifies this`payload
      ensures payload == old(payload) + Encode(order, FixedV(inner))
    {
      var bs := PutU32(order, ToU32(inner));
      payload := payload + bs;
    }

    method PushStr(value: seq<byte>)
      requires EncodableStr(value)
      modifies this`payload
      ensures payload == old(payload) + EncodeStr(order, value)
    {
      hide PutU32;
      var lenWithNul := |value| + 1;
      payload := payload + PutU32(order, lenWithNul);
      payload := payload + value;
      payload := payload + [0];
      // align to 4 bytes
      var realignCount := (4 - lenWithNul % 4) % 4;
      payload := payload + Zeros(realignCount);
    }

    method PushArray(bytes: seq<byte>)
      requires |bytes| < 0x1_0000_0000
      modifies this`payload
      ensures payload == old(payload) + Encode(order, ArrayV(bytes))
    {
      hide PutU32;
      var len := |bytes|;
      payload := payload + PutU32(order, len);
      payload := payload + bytes;
      var realignCount := (4 - len % 4) % 4;
      payload := payload + Zeros(realignCount);
    }

    method PushObject(id: Option<ObjectId>)
      modifies this`payload
      ensures payload == old(payload) + Encode(order, ObjectV(id))
    {
      match id
      case Some(oi) => PushUint(oi);
      case None => PushUint(0);
    }

    method PushNewIdKnownInterface(newId: ObjectId)
      modifies this`payload
      ensures payload == old(payload) + Encode(order, NewIdV(newId))
    {
      PushObject(Some(newId));
    }

    method PushNewIdUnknownInterface(newObj: NewObject)
      requires EncodableStr(newObj.interfaceName)
      modifies this`payload
      ensures payload == old(payload) + Encode(order, NewObjectV(newObj))
    {
      hide PutU32, EncodeStr;
      PushStr(newObj.interfaceName);
      PushUint(newObj.interfaceVersion);
      PushObject(Some(newObj.objectId));
    }

    method PushFd(fd: Fd)
      modifies this`fds
      ensures fds == old(fds) + [fd]
    {
      fds := fds + [fd];
    }

    /** The push a write function stands for. */
    method Push(wf: WriteFn, value: WireValue)
      requires Accepts(wf, value) && Encodable(value)
      modifies this`payload, this`fds
      ensures payload == old(payload) + Encode(order, value)
      ensures fds == old(fds) + FdsOf(value)
    {
      hide PutU32, EncodeStr, EncodeArray;
      match value
      case UintV(u) => PushUint(u);
      case IntV(i) => PushInt(i);
      case FixedV(i) => PushFixed(i);
      case StrV(s) => PushStr(s);
      case ArrayV(a) => PushArray(a);
      case ObjectV(o) => PushObject(o);
      case NewIdV(id) => PushNewIdKnownInterface(id);
      case NewObjectV(n) => PushNewIdUnknownInterface(n);
      case FdV(fd) => PushFd(fd);
    }

    method ClearPayload()
      modifies this`payload, this`fds
      ensures payload == [] && fds == []
    {
      payload := [];
      fds := [];
    }

    method Serialize() returns (r: Result<seq<byte>, Error>)
      ensures r == Packets.Serialize(order, View())
    {
      hide PutU32, BitOr;
      var totalBytes := 8 + |payload|;
      if totalBytes > MAX_PACKET_SIZE {
        return Err(PacketTooLong(totalBytes, MAX_PACKET_SIZE));
      }
      SizeAndOpcodeIsSum(totalBytes, opcode);
      var word := BitOr(totalBytes * 0x1_0000, opcode);
      var head, tail := PutU32(order, objectId), PutU32(order, word);
      var buf := new byte[totalBytes](_ => 0);
      forall i | 0 <= i < 4 {
        buf[i] := head[i];
      }
      forall i | 4 <= i < 8 {
        buf[i] := tail[i - 4];
      }
      forall i | 8 <= i < totalBytes {
        buf[i] := payload[i - 8];
      }
      assert buf[..] == head + tail + payload;
      r := Ok(buf[..]);
    }

    method Read() returns (reader: PacketReader)
      ensures fresh(reader) && reader.packet == this && reader.At() == Cursor(0, 0) && reader.Valid()
    {
      reader := new PacketReader(this);
    }
  }

  class PacketReader {
    const packet: Packet
    var payloadPos: nat
    var fdPos: nat

    /** The cursor stays inside both channels and moves through the payload in whole words. */
    ghost predicate Valid()
      reads this, packet
    {
      payloadPos <= |packet.payload| && payloadPos % 4 == 0 && fdPos <= |packet.fds|
    }

    function At(): Cursor
      reads this
    {
      Cursor(payloadPos, fdPos)
    }

    constructor (packet: Packet)
      ensures this.packet == packet && At() == Cursor(0, 0)
    {
      this.packet, this.payloadPos, this.fdPos := packet, 0, 0;
    }

    method PeekBytes(buf: array<byte>) returns (r: Result<(), Error>)
      requires Valid()
      modifies buf
      ensures payloadPos + buf.Length > |packet.payload| ==>
                r == Err(FieldOutOfBounds(payloadPos + 4, |packet.payload|)) && buf[..] == old(buf[..])
      ensures payloadPos + buf.Length <= |packet.payload| ==>
                r == Ok(()) && buf[..] == packet.payload[payloadPos..payloadPos + buf.Length]
    {
      if payloadPos + buf.Length > |packet.payload| {
        return Err(FieldOutOfBounds(payloadPos + 4, |packet.payload|));
      }
      forall i | 0 <= i < buf.Length {
        buf[i] := packet.payload[payloadPos + i];
      }
      return Ok(());
    }

    method ReadUint() returns (r: Result<u32, Error>)
      requires Valid()
      modifies this`payloadPos
      ensures Valid()
      ensures Taken(r, payloadPos) == TakeU32(packet.order, packet.payload, old(payloadPos))
    {
      hide GetU32;
      var buf := new byte[4](_ => 0);
      var _ :- PeekBytes(buf);
      payloadPos := payloadPos + 4;
      return Ok(GetU32(packet.order, buf[..]));
    }

    /** `read_int`, and `read_fixed` for the inner value. */
    method ReadInt() returns (r: Result<i32, Error>)
      requires Valid()
      modifies this`payloadPos
      ensures Valid()
      ensures var t := TakeU32(packet.order, packet.payload, old(payloadPos));
              payloadPos == t.pos && r == if t.result.Ok? then Ok(ToI32(t.result.value)) else Err(t.result.error)
    {
      hide TakeU32;
      var u :- ReadUint();
      return Ok(ToI32(u));
    }

    /** The part that `read_str` and `read_array` share: length word, bounds check, slice, padding. */
    method ReadRun() returns (r: Result<seq<byte>, Error>)
      requires Valid()
      modifies this`payloadPos
      ensures Valid()
      ensures Taken(r, payloadPos) == TakeRun(packet.order, packet.payload, old(payloadPos))
    {
      hide GetU32, PadLength;
      var lenBuf := new byte[4](_ => 0);
      var _ :- PeekBytes(lenBuf);
      var len: nat := GetU32(packet.order, lenBuf[..]);
      var paddingLen := (4 - len % 4) % 4;
      PadLengthIs(len);
      var lenPadded := len + paddingLen;
      if payloadPos + 4 + lenPadded > |packet.payload| {
        return Err(FieldOutOfBounds(payloadPos + 4 + lenPadded, |packet.payload|));
      }
      payloadPos := payloadPos + 4;
      var slice := packet.payload[payloadPos..payloadPos + len];
      payloadPos := payloadPos + lenPadded;
      return Ok(slice);
    }

    method ReadStr() returns (r: Result<seq<byte>, Error>)
      requires Valid()
      modifies this`payloadPos
      ensures Valid()
      ensures Taken(r, payloadPos) == TakeStr(packet.order, packet.payload, old(payloadPos))
    {
      hide TakeRun;
      var slice :- ReadRun();
      var nulPos := FirstNul(slice);
      if |slice| == 0 {
        return Err(StringLengthUnderflow);
      }
      if nulPos != Some(|slice| - 1) {
        return Err(StringMisplacedNul(nulPos, |slice| - 1));
      }
      var text := slice[..|slice| - 1];
      if !ValidUtf8(text) {
        return Err(StringInvalidUtf8(text));
      }
      return Ok(text);
    }

    method ReadObject() returns (r: Result<Option<ObjectId>, Error>)
      requires Valid()
      modifies this`payloadPos
      ensures Valid()
      ensures var t := TakeU32(packet.order, packet.payload, old(payloadPos));
              payloadPos == t.pos && r == if t.result.Ok? then Ok(ToObject(t.result.value)) else Err(t.result.error)
    {
      hide TakeU32;
      var oid :- ReadUint();
      return Ok(ToObject(oid));
    }

    method ReadNewIdKnownInterface() returns (r: Result<ObjectId, Error>)
      requires Valid()
      modifies this`payloadPos
      ensures Valid()
      ensures Taken(r, payloadPos) == TakeNewId(packet.order, packet.payload, old(payloadPos))
    {
      hide TakeU32;
      var oidOpt :- ReadObject();
      match oidOpt
      case None => return Err(ZeroObjectId);
      case Some(id) => return Ok(id);
    }

    method ReadNewIdUnknownInterface() returns (r: Result<NewObject, Error>)
      requires Valid()
      modifies this`payloadPos
      ensures Valid()
      ensures Taken(r, payloadPos) == TakeNewObject(packet.order, packet.payload, old(payloadPos))
    {
      hide TakeU32, TakeStr;
      var name :- ReadStr();
      var version :- ReadUint();
      var oidOpt :- ReadObject();
      match oidOpt
      case None => return Err(ZeroObjectId);
      case Some(id) => return Ok(NewObject(id, name, version));
    }

    method ReadFd() returns (r: Result<Fd, Error>)
      requires Valid()
      modifies this`fdPos
      ensures Valid()
      ensures if old(fdPos) < |packet.fds|
              then r == Ok(packet.fds[old(fdPos)]) && fdPos == old(fdPos) + 1
              else r == Err(FdOutOfBounds(|packet.fds|)) && fdPos == old(fdPos)
    {
      if fdPos >= |packet.fds| {
        return Err(FdOutOfBounds(|packet.fds|));
      }
      var fd := packet.fds[fdPos];
      fdPos := fdPos + 1;
      return Ok(fd);
    }

    /** The read a read function stands for. */
    method ReadBy(rf: ReadFn) returns (r: Result<WireValue, Error>)
      requires Valid()
      modifies this`payloadPos, this`fdPos
      ensures Valid()
      ensures Packets.Read(r, At()) == ReadValue(packet.order, rf, packet.payload, packet.fds, old(At()))
    {
      hide TakeU32, TakeStr, TakeRun, TakeNewId, TakeNewObject;
      match rf
      case ReadUint =>
        var u :- ReadUint();
        return Ok(UintV(u));
      case ReadInt =>
        var i :- ReadInt();
        return Ok(IntV(i));
      case ReadFixed =>
        var i :- ReadInt();
        return Ok(FixedV(i));
      case ReadStr =>
        var s :- ReadStr();
        return Ok(StrV(s));
      case ReadArray =>
        var a :- ReadRun();
        return Ok(ArrayV(a));
      case ReadObject =>
        var o :- ReadObject();
        return Ok(ObjectV(o));
      case ReadNewIdKnownInterface =>
        var id :- ReadNewIdKnownInterface();
        return Ok(NewIdV(id));
      case ReadNewIdUnknownInterface =>
        var n :- ReadNewIdUnknownInterface();
        return Ok(NewObjectV(n));
      case ReadFd =>
        var fd :- ReadFd();
        return Ok(FdV(fd));
    }

    method Finish() returns (r: Result<(), Error>)
      requires Valid()
      ensures r == Packets.Finish(packet.payload, packet.fds, At())
      ensures r.Ok? <==> payloadPos == |packet.payload| && fdPos == |packet.fds|
    {
      var allRead := payloadPos >= |packet.payload| && fdPos >= |packet.fds|;
      if allRead {
        return Ok(());
      }
      return Err(IncompleteRead(payloadPos, |packet.payload|, fdPos, |packet.fds|));
    }
  }
}
