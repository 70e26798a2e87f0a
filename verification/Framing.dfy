/** Packets on a byte stream that carries file descriptors: whale-land/src/connection.rs. */
module Framing {
  import opened Numbers
  import opened Outcomes
  import opened Packets
  import opened PacketBuffer

  // ----- the stream -----

  /** A byte in the stream, with the descriptors that ride on it: those of a chunk ride on its first byte. */
  datatype Cell = Cell(b: byte, fds: seq<Fd>)

  function Chunk(bytes: seq<byte>, fds: seq<Fd>): (cells: seq<Cell>)
    ensures |cells| == |bytes|
  {
    seq(|bytes|, i requires 0 <= i < |bytes| => Cell(bytes[i], if i == 0 then fds else []))
  }

  function BytesOf(cells: seq<Cell>): (bytes: seq<byte>)
    ensures |bytes| == |cells|
  {
    seq(|cells|, i requires 0 <= i < |cells| => cells[i].b)
  }

  /** The descriptors riding on a stretch of the stream, in order. */
  function Riding(cells: seq<Cell>): seq<Fd> {
    if |cells| == 0 then [] else cells[0].fds + Riding(cells[1..])
  }

  /** How a packet looks on the stream. */
  function Frame(order: ByteOrder, p: PacketData): seq<Cell>
    requires Serialize(order, p).Ok?
  {
    Chunk(Serialize(order, p).value, p.fds)
  }

  lemma ChunkSlices(bytes: seq<byte>, fds: seq<Fd>, m: nat, n: nat)
    requires m <= n <= |bytes|
    ensures Chunk(bytes, fds)[m..n] == Chunk(bytes[m..n], if m == 0 then fds else [])
    ensures BytesOf(Chunk(bytes, fds)[m..n]) == bytes[m..n]
  {
  }

  lemma ChunkGrows(bytes: seq<byte>, fds: seq<Fd>, sent: nat, more: nat)
    requires 0 < sent && sent + more <= |bytes|
    ensures Chunk(bytes[..sent], fds) + Chunk(bytes[sent..][..more], []) == Chunk(bytes[..sent + more], fds)
  {
  }

  lemma SerializedLength(order: ByteOrder, p: PacketData)
    requires Serialize(order, p).Ok?
    ensures |Serialize(order, p).value| == 8 + |p.payload| <= MAX_PACKET_SIZE
  {
  }

  lemma {:induction false} RidingNone(cells: seq<Cell>)
    ensures (forall i :: 0 <= i < |cells| ==> cells[i].fds == []) <==> Riding(cells) == []
    decreases |cells|
  {
    if |cells| > 0 {
      RidingNone(cells[1..]);
      assert (forall i :: 0 <= i < |cells| ==> cells[i].fds == [])
        <==> cells[0].fds == [] && (forall i :: 0 <= i < |cells[1..]| ==> cells[1..][i].fds == []) by {
        assert forall i :: 1 <= i < |cells| ==> cells[i] == cells[1..][i - 1];
      }
    }
  }

  lemma {:induction false} RidingConcat(a: seq<Cell>, b: seq<Cell>)
    ensures Riding(a + b) == Riding(a) + Riding(b)
    decreases |a|
  {
    if |a| == 0 {
      assert a + b == b;
    } else {
      assert (a + b)[1..] == a[1..] + b;
      RidingConcat(a[1..], b);
    }
  }

  /** All the descriptors of a chunk ride on any nonempty beginning of it. */
  lemma RidingOnChunk(bytes: seq<byte>, fds: seq<Fd>, n: nat)
    requires 0 < n <= |bytes|
    ensures Riding(Chunk(bytes, fds)[..n]) == fds
  {
    RidingNone(Chunk(bytes, fds)[..n][1..]);
  }

  // ----- what one receive does -----

  function HeaderId(order: ByteOrder, header: seq<byte>): u32
    requires |header| == 8
  {
    GetU32(order, header[0..4])
  }

  function HeaderSize(order: ByteOrder, header: seq<byte>): nat
    requires |header| == 8
  {
    GetU32(order, header[4..8]) / 0x1_0000
  }

  /** The opcode as the receiver extracts it: only the low eight bits. */
  function HeaderOpcode(order: ByteOrder, header: seq<byte>): u16
    requires |header| == 8
  {
    GetU32(order, header[4..8]) % 0x100
  }

  function HeaderError(order: ByteOrder, header: seq<byte>): Option<Error>
    requires |header| == 8
  {
    if HeaderSize(order, header) < 8 then Some(PacketTooShort(HeaderSize(order, header), 8))
    else if HeaderId(order, header) == 0 then Some(ZeroObjectId)
    else None
  }

  /** How many cells one receive consumes. */
  function Consumed(order: ByteOrder, cells: seq<Cell>): (n: nat)
    requires |cells| >= 8
    ensures n >= 8
  {
    var header := BytesOf(cells[..8]);
    if HeaderError(order, header).Some? then 8 else HeaderSize(order, header)
  }

  /** Everything that one receive will consume has been, or will be, delivered. */
  predicate Arrives(order: ByteOrder, cells: seq<Cell>) {
    |cells| >= 8 && |cells| >= Consumed(order, cells)
  }

  /** The result of one receive whose first read returned n bytes. Only that read picks up descriptors. */
  function Received(order: ByteOrder, cells: seq<Cell>, n: nat): Result<PacketData, Error>
    requires Arrives(order, cells) && n <= 8
  {
    var header := BytesOf(cells[..8]);
    match HeaderError(order, header)
    case Some(e) => Err(e)
    case None =>
      Ok(PacketData(HeaderId(order, header), HeaderOpcode(order, header),
                    BytesOf(cells[8..Consumed(order, cells)]), Riding(cells[..n])))
  }

  // ----- the socket and the connection -----

  /** A connected stream socket. Each call moves a number of bytes of the socket's choosing, but at
      least one; `WouldBlock` is retried inside the calls. */
  class Socket {
    /** Everything written so far. */
    var outgoing: seq<Cell>
    /** Everything not yet read, including what is still to arrive. */
    var incoming: seq<Cell>

    constructor (incoming: seq<Cell>)
      ensures this.incoming == incoming && outgoing == []
    {
      this.incoming, this.outgoing := incoming, [];
    }

    method SendWithFds(data: seq<byte>, fds: seq<Fd>) returns (n: nat)
      requires |data| > 0
      modifies this`outgoing
      ensures 0 < n <= |data| && outgoing == old(outgoing) + Chunk(data[..n], fds)
    {
      n :| 0 < n <= |data|;
      outgoing := outgoing + Chunk(data[..n], fds);
    }

    method Send(data: seq<byte>) returns (n: nat)
      requires |data| > 0
      modifies this`outgoing
      ensures 0 < n <= |data| && outgoing == old(outgoing) + Chunk(data[..n], [])
    {
      n :| 0 < n <= |data|;
      outgoing := outgoing + Chunk(data[..n], []);
    }

    /** Fills buf from index `from` on; the descriptors riding on the bytes are lost. */
    method Recv(buf: array<byte>, from: nat) returns (n: nat)
      requires from <= buf.Length && (from < buf.Length ==> |incoming| > 0)
      modifies this`incoming, buf
      ensures n <= buf.Length - from && n <= |old(incoming)| && (from < buf.Length ==> n > 0)
      ensures incoming == old(incoming)[n..]
      ensures buf[..from] == old(buf[..from]) && buf[from..from + n] == BytesOf(old(incoming)[..n])
    {
      if from == buf.Length {
        return 0;
      }
      n :| 0 < n <= buf.Length - from && n <= |incoming|;
      forall i | 0 <= i < n {
        buf[from + i] := incoming[i].b;
      }
      incoming := incoming[n..];
    }

    method RecvWithFds(buf: array<byte>) returns (n: nat, fds: seq<Fd>)
      requires buf.Length > 0 && |incoming| > 0
      modifies this`incoming, buf
      ensures 0 < n <= buf.Length && n <= |old(incoming)|
      ensures incoming == old(incoming)[n..] && fds == Riding(old(incoming)[..n])
      ensures buf[..n] == BytesOf(old(incoming)[..n])
    {
      fds := [];
      n :| 0 < n <= buf.Length && n <= |incoming|;
      fds := Riding(incoming[..n]);
      forall i | 0 <= i < n {
        buf[i] := incoming[i].b;
      }
      incoming := incoming[n..];
    }
  }

  /** `AtomicU32::fetch_add` with the retry that skips the null object: the ID handed out and the
      counter afterwards. */
  function NextId(counter: u32): (ObjectId, u32) {
    if counter == 0 then (1, 2) else (counter, (counter + 1) % 0x1_0000_0000)
  }

  /** The counter always moves on to the number after the ID handed out, and 0 is passed over. */
  lemma NextIdFollows(counter: u32)
    ensures var (id, next) := NextId(counter);
            id == (if counter == 0 then 1 else counter) && next == (id + 1) % 0x1_0000_0000
  {
  }

  /** The counter after k IDs were handed out. */
  function CounterAfter(k: nat): u32 {
    if k == 0 then 2 else NextId(CounterAfter(k - 1)).1
  }

  lemma {:induction false} CounterBeforeWrap(k: nat)
    requires k <= 0xFFFF_FFFD
    ensures CounterAfter(k) == 2 + k
  {
    if k > 0 {
      CounterBeforeWrap(k - 1);
    }
  }

  /** IDs count up from 2 exactly until the counter wraps; the next one is the display's, 1. */
  lemma IdCountsUpIff(k: nat)
    ensures NextId(CounterAfter(k)).0 == 2 + k <==> k < 0xFFFF_FFFE
    ensures k == 0xFFFF_FFFE ==> NextId(CounterAfter(k)).0 == 1
  {
    if k <= 0xFFFF_FFFD {
      CounterBeforeWrap(k);
    } else if k == 0xFFFF_FFFE {
      CounterBeforeWrap(k - 1);
    }
  }

  class Connection {
    const order: ByteOrder
    const socket: Socket
    var nextObjectId: u32

    constructor (order: ByteOrder, socket: Socket)
      ensures this.order == order && this.socket == socket && nextObjectId == 2
    {
      this.order, this.socket, this.nextObjectId := order, socket, 2;
    }

    method SendPacket(packet: Packet) returns (r: Result<(), Error>)
      requires packet.order == order
      modifies socket`outgoing
      ensures Serialize(order, packet.View()).Err? ==>
                r == Err(Serialize(order, packet.View()).error) && socket.outgoing == old(socket.outgoing)
      ensures Serialize(order, packet.View()).Ok? ==>
                r == Ok(()) && socket.outgoing == old(socket.outgoing) + Frame(order, packet.View())
    {
      hide Packets.Serialize;
      var serialized :- packet.Serialize();
      ghost var before := socket.outgoing;
      assert |serialized| >= 8 by {
        SerializedLength(order, packet.View());
      }
      var totalSent := socket.SendWithFds(serialized, packet.fds);
      while totalSent < |serialized|
        invariant 0 < totalSent <= |serialized|
        invariant socket.outgoing == before + Chunk(serialized[..totalSent], packet.fds)
        decreases |serialized| - totalSent
      {
        var nowSent := socket.Send(serialized[totalSent..]);
        ChunkGrows(serialized, packet.fds, totalSent, nowSent);
        totalSent := totalSent + nowSent;
      }
      assert serialized[..totalSent] == serialized;
      return Ok(());
    }

    /** The loop that reads until a buffer is full; both the header and the payload use it. */
    method FillBuffer(buf: array<byte>, alreadyReceived: nat, ghost cells: seq<Cell>)
      requires buf.Length <= |cells| && alreadyReceived <= buf.Length
      requires socket.incoming == cells[alreadyReceived..]
      requires buf[..alreadyReceived] == BytesOf(cells[..alreadyReceived])
      modifies socket`incoming, buf
      ensures socket.incoming == cells[buf.Length..] && buf[..] == BytesOf(cells[..buf.Length])
    {
      var totalReceived := alreadyReceived;
      while totalReceived < buf.Length
        invariant totalReceived <= buf.Length
        invariant socket.incoming == cells[totalReceived..]
        invariant buf[..totalReceived] == BytesOf(cells[..totalReceived])
        decreases buf.Length - totalReceived
      {
        var nowReceived := socket.Recv(buf, totalReceived);
        BytesGrow(cells, totalReceived, nowReceived);
        assert buf[..totalReceived + nowReceived]
            == buf[..totalReceived] + buf[totalReceived..totalReceived + nowReceived];
        totalReceived := totalReceived + nowReceived;
      }
      assert buf[..] == buf[..totalReceived];
    }

    /** On success the stream is left behind the frame, on a malformed header behind the header;
        descriptors are those riding on the first read. */
    method RecvPacket() returns (r: Result<Packet, Error>, ghost firstRead: nat)
      requires Arrives(order, socket.incoming)
      modifies socket`incoming
      ensures 0 < firstRead <= 8
      ensures socket.incoming == old(socket.incoming)[Consumed(order, old(socket.incoming))..]
      ensures match Received(order, old(socket.incoming), firstRead)
              case Err(e) => r == Err(e)
              case Ok(p) => r.Ok? && fresh(r.value) && r.value.order == order && r.value.View() == p
    {
      hide GetU32;
      ghost var cells := socket.incoming;
      var fixedBuf := new byte[8](_ => 0);
      var totalReceived, fds := socket.RecvWithFds(fixedBuf);
      firstRead := totalReceived;
      FillBuffer(fixedBuf, totalReceived, cells);
      var header := fixedBuf[..];
      var objectIdU32 := GetU32(order, header[0..4]);
      var sizeAndOpcode := GetU32(order, header[4..8]);
      var packetSize := sizeAndOpcode / 0x1_0000;
      var opcode := sizeAndOpcode % 0x100;
      if packetSize < 8 {
        return Err(PacketTooShort(packetSize, 8)), firstRead;
      }
      if objectIdU32 == 0 {
        return Err(ZeroObjectId), firstRead;
      }

      var payload := new byte[packetSize - 8](_ => 0);
      totalReceived := socket.Recv(payload, 0);
      FillBuffer(payload, totalReceived, cells[8..]);
      assert cells[8..][..packetSize - 8] == cells[8..packetSize];
      assert cells[8..][packetSize - 8..] == cells[packetSize..];
      var packet := new Packet.FromExisting(order, PacketData(objectIdU32, opcode, payload[..], fds));
      return Ok(packet), firstRead;
    }

    method GetAndIncrementNextObjectId() returns (id: ObjectId)
      modifies this`nextObjectId
      ensures (id, nextObjectId) == NextId(old(nextObjectId))
    {
      while true
        invariant nextObjectId == old(nextObjectId) || (old(nextObjectId) == 0 && nextObjectId == 1)
        decreases nextObjectId == 0
      {
        var newVal := nextObjectId;
        nextObjectId := (nextObjectId + 1) % 0x1_0000_0000;
        if newVal != 0 {
          return newVal;
        }
      }
    }
  }

  lemma BytesGrow(cells: seq<Cell>, got: nat, more: nat)
    requires got + more <= |cells|
    ensures BytesOf(cells[..got]) + BytesOf(cells[got..][..more]) == BytesOf(cells[..got + more])
    ensures cells[got..][more..] == cells[got + more..]
  {
  }

  // ----- the framing round trip -----

  /** The packet as the peer will see it: the receiver keeps the low eight bits of the opcode. */
  function Masked(p: PacketData): PacketData {
    p.(opcode := p.opcode % 0x100)
  }

  lemma SplitWord(size: u16, opcode: u16)
    ensures (size * 0x1_0000 + opcode) / 0x1_0000 == size
    ensures (size * 0x1_0000 + opcode) % 0x100 == opcode % 0x100
  {
  }

  lemma FrameHeader(order: ByteOrder, p: PacketData)
    requires Serialize(order, p).Ok?
    ensures var header := Serialize(order, p).value[..8];
            && HeaderId(order, header) == p.objectId
            && HeaderSize(order, header) == 8 + |p.payload| == |Frame(order, p)|
            && HeaderOpcode(order, header) == p.opcode % 0x100
            && HeaderError(order, header) == None
    ensures Serialize(order, p).value[8..] == p.payload
  {
    hide PutU32, GetU32, SizeAndOpcode;
    var total := 8 + |p.payload|;
    SizeAndOpcodeIsSum(total, p.opcode);
    var word := SizeAndOpcode(total, p.opcode);
    var header := Serialize(order, p).value[..8];
    assert header[0..4] == PutU32(order, p.objectId);
    assert header[4..8] == PutU32(order, word);
    U32Bytes(order, p.objectId);
    U32Bytes(order, word);
    SplitWord(total, p.opcode);
  }

  /** One frame at the head of the stream is received whole, whatever the first read returned, with
      exactly its descriptors and nothing of what follows. */
  lemma FrameReceived(order: ByteOrder, p: PacketData, tail: seq<Cell>, n: nat)
    requires Serialize(order, p).Ok? && 0 < n <= 8
    ensures var cells := Frame(order, p) + tail;
            && Arrives(order, cells)
            && Received(order, cells, n) == Ok(Masked(p))
            && cells[Consumed(order, cells)..] == tail
  {
    hide Serialize, GetU32;
    var bytes := Serialize(order, p).value;
    SerializedLength(order, p);
    FrameHeader(order, p);
    var cells := Frame(order, p) + tail;
    assert cells[..8] == Frame(order, p)[0..8];
    ChunkSlices(bytes, p.fds, 0, 8);
    assert bytes[0..8] == bytes[..8];
    assert cells[8..|bytes|] == Frame(order, p)[8..|bytes|];
    ChunkSlices(bytes, p.fds, 8, |bytes|);
    assert bytes[8..|bytes|] == bytes[8..];
    assert cells[..n] == Frame(order, p)[..n];
    RidingOnChunk(bytes, p.fds, n);
  }

  /** The opcode survives exactly when it fits eight bits. */
  lemma RoundTripIff(order: ByteOrder, p: PacketData, tail: seq<Cell>, n: nat)
    requires Serialize(order, p).Ok? && 0 < n <= 8
    ensures Arrives(order, Frame(order, p) + tail)
    ensures Received(order, Frame(order, p) + tail, n) == Ok(p) <==> p.opcode < 0x100
  {
    hide Serialize, Received, Consumed;
    FrameReceived(order, p, tail, n);
  }

  // ----- whole conversations -----

  predicate AllFit(order: ByteOrder, ps: seq<PacketData>) {
    forall i :: 0 <= i < |ps| ==> Serialize(order, ps[i]).Ok?
  }

  /** The stream that sending the packets one after the other produces. */
  function Stream(order: ByteOrder, ps: seq<PacketData>): seq<Cell>
    requires AllFit(order, ps)
  {
    if |ps| == 0 then [] else Frame(order, ps[0]) + Stream(order, ps[1..])
  }

  /** Repeated receives; firsts[i] is what the first read of receive i returned. Gives the packets
      and what is left of the stream, or nothing if a receive fails or starves. */
  function ReceiveAll(order: ByteOrder, cells: seq<Cell>, firsts: seq<nat>): Option<(seq<PacketData>, seq<Cell>)>
    requires forall i :: 0 <= i < |firsts| ==> 0 < firsts[i] <= 8
  {
    if |firsts| == 0 then Some(([], cells))
    else if !Arrives(order, cells) || Received(order, cells, firsts[0]).Err? then None
    else
      match ReceiveAll(order, cells[Consumed(order, cells)..], firsts[1..])
      case None => None
      case Some((ps, rest)) => Some(([Received(order, cells, firsts[0]).value] + ps, rest))
  }

  function MaskedAll(ps: seq<PacketData>): (ms: seq<PacketData>)
    ensures |ms| == |ps|
  {
    seq(|ps|, i requires 0 <= i < |ps| => Masked(ps[i]))
  }

  /** Any packets, any fragmentation: receiving as often as was sent returns the packets in order,
      each with its own descriptors, and leaves the stream on the boundary behind the last frame. */
  lemma {:induction false} ConversationReceived(order: ByteOrder, ps: seq<PacketData>, tail: seq<Cell>,
                                                firsts: seq<nat>)
    requires AllFit(order, ps) && |firsts| == |ps|
    requires forall i :: 0 <= i < |firsts| ==> 0 < firsts[i] <= 8
    ensures ReceiveAll(order, Stream(order, ps) + tail, firsts) == Some((MaskedAll(ps), tail))
    decreases |ps|
  {
    hide Frame, Received, Consumed, Arrives, Masked;
    if |ps| == 0 {
      assert Stream(order, ps) + tail == tail;
    } else {
      var rest := Stream(order, ps[1..]) + tail;
      assert Stream(order, ps) + tail == Frame(order, ps[0]) + rest;
      FrameReceived(order, ps[0], rest, firsts[0]);
      ConversationReceived(order, ps[1..], tail, firsts[1..]);
      assert MaskedAll(ps) == [Masked(ps[0])] + MaskedAll(ps[1..]);
    }
  }

  /** The conversation comes back unchanged exactly when every opcode fits eight bits. */
  lemma ConversationRoundTripIff(order: ByteOrder, ps: seq<PacketData>, tail: seq<Cell>, firsts: seq<nat>)
    requires AllFit(order, ps) && |firsts| == |ps|
    requires forall i :: 0 <= i < |firsts| ==> 0 < firsts[i] <= 8
    ensures ReceiveAll(order, Stream(order, ps) + tail, firsts) == Some((ps, tail))
       <==> forall i :: 0 <= i < |ps| ==> ps[i].opcode < 0x100
  {
    hide ReceiveAll, Stream, Serialize;
    ConversationReceived(order, ps, tail, firsts);
    if MaskedAll(ps) == ps {
      forall i | 0 <= i < |ps|
        ensures ps[i].opcode < 0x100
      {
        assert Masked(ps[i]) == ps[i];
      }
    }
  }

  /** A peer that lets descriptors ride elsewhere than on the first byte of a frame: a receive returns
      all descriptors of the frame exactly when none ride behind its first read. */
  lemma DescriptorsKeptIff(order: ByteOrder, cells: seq<Cell>, n: nat)
    requires Arrives(order, cells) && 0 < n <= 8
    ensures Received(order, cells, n).Ok? ==>
              (Received(order, cells, n).value.fds == Riding(cells[..Consumed(order, cells)])
          <==> forall i :: n <= i < Consumed(order, cells) ==> cells[i].fds == [])
  {
    var a, b := cells[..n], cells[n..Consumed(order, cells)];
    assert cells[..Consumed(order, cells)] == a + b;
    RidingConcat(a, b);
    RidingNone(b);
    assert (forall i :: 0 <= i < |b| ==> b[i].fds == [])
      <==> (forall i :: n <= i < Consumed(order, cells) ==> cells[i].fds == []) by {
      assert forall i :: n <= i < Consumed(order, cells) ==> cells[i] == b[i - n];
    }
  }
}
