/** The dispatch functions of one-true-pairing/src/main.rs on a live connection, each tied to the
    state function of `Clipboard` that says what it does. */
module ClipboardOwning {
  import opened Numbers
  import opened Outcomes
  import opened Utf8
  import opened Packets
  import opened Codec
  import opened PacketBuffer
  import opened Generator
  import opened GeneratedCode
  import opened FormsAgree
  import opened Framing
  import Interleaving
  import opened Clipboard

  // ----- requests as packets -----

  function PacketOf(order: ByteOrder, r: Clipboard.Request): PacketData
    requires AllEncodable(ArgsOf(r))
  {
    PacketData(TargetOf(r), OpcodeOf(r), EncodeAll(order, ArgsOf(r)), AllFds(ArgsOf(r)))
  }

  lemma AsciiEncodable(s: string)
    requires |s| < 100 && forall i :: 0 <= i < |s| ==> 0 < s[i] as int < 0x80
    ensures EncodableStr(Ascii(s)) && |Ascii(s)| < 100
  {
    AsciiIsUtf8(Ascii(s));
  }

  lemma KnownStringsEncodable(s: Text)
    requires s in PlainTextMimeTypes() || s == WlSeat() || s == DataControlManager()
    ensures EncodableStr(s) && |s| < 100
  {
    hide EncodableStr, Ascii;
    AsciiEncodable("STRING");
    AsciiEncodable("TEXT");
    AsciiEncodable("UTF8_STRING");
    AsciiEncodable("text/plain");
    AsciiEncodable("text/plain;charset=utf-8");
    AsciiEncodable("wl_seat");
    AsciiEncodable("ext_data_control_manager_v1");
  }

  lemma ShortEncoding(order: ByteOrder, v: WireValue)
    requires Encodable(v)
    requires v.UintV? || v.NewIdV? || v.ObjectV? || (v.StrV? && |v.text| < 100)
             || (v.NewObjectV? && |v.newObject.interfaceName| < 100)
    ensures |Encode(order, v)| < 200
  {
    hide PutU32, EncodeStr;
    match v
    case StrV(s) => EncodeStrShape(order, s);
    case NewObjectV(n) => EncodeStrShape(order, n.interfaceName);
    case _ =>
  }

  lemma EncodingOfTwo(order: ByteOrder, vs: seq<WireValue>)
    requires |vs| <= 2 && AllEncodable(vs)
    requires forall i :: 0 <= i < |vs| ==> |Encode(order, vs[i])| < 200
    ensures |EncodeAll(order, vs)| < 400
  {
    hide Encode, Encodable;
    if |vs| == 2 {
      assert EncodeAll(order, vs) == Encode(order, vs[0]) + (Encode(order, vs[1]) + EncodeAll(order, vs[1..][1..]));
    }
  }

  /** Every request this program makes type-checks, encodes and fits a packet. */
  lemma RequestFits(order: ByteOrder, r: Clipboard.Request)
    requires KnownStrings(r)
    ensures Compiles(ProcedureOf(r)) && TypedArgs(ProcedureOf(r).args, ArgsOf(r)) && AllEncodable(ArgsOf(r))
    ensures Serialize(order, PacketOf(order, r)).Ok?
  {
    hide Encode, EncodeAll, EncodableStr;
    if r.Bind? {
      KnownStringsEncodable(r.interfaceName);
    }
    if r.Offer? {
      KnownStringsEncodable(r.mimeType);
    }
    forall i | 0 <= i < |ArgsOf(r)|
      ensures |Encode(order, ArgsOf(r)[i])| < 200
    {
      ShortEncoding(order, ArgsOf(r)[i]);
    }
    EncodingOfTwo(order, ArgsOf(r));
  }

  /** The packet that the generated code builds for a request. */
  lemma RequestPacket(order: ByteOrder, r: Clipboard.Request)
    requires KnownStrings(r)
    ensures AllEncodable(ArgsOf(r)) && Serialize(order, PacketOf(order, r)).Ok?
    ensures |NamesOf(ProcedureOf(r).args)| == |ArgsOf(r)|
    ensures var s := StructFor(Generator.Request, OpcodeOf(r), ProcedureOf(r));
            var fields := GeneratedCode.Bind(NamesOf(ProcedureOf(r).args), ArgsOf(r));
            Writable(s.writes, fields) && StructInto(order, s, fields, TargetOf(r)) == PacketOf(order, r)
  {
    hide KnownStrings, AllEncodable, ArgsOf, ProcedureOf, OpcodeOf, TargetOf, Serialize, EncodeAll, AllFds, Writable,
      StructInto, ProxyPacket, GeneratedCode.Bind, NamesOf, WritesOf, LetsOf, FieldsOf, Compiles, FieldOf;
    RequestFits(order, r);
    RequestFormsAgree(order, OpcodeOf(r), ProcedureOf(r), TargetOf(r), ArgsOf(r));
  }

  /** The part of the stream that a trace has produced. */
  function WireOf(order: ByteOrder, trace: seq<Entry>): seq<Cell>
    requires forall i :: 0 <= i < |trace| && trace[i].Sent? ==> KnownStrings(trace[i].request)
  {
    if |trace| == 0 then []
    else
      var last := trace[|trace| - 1];
      WireOf(order, trace[..|trace| - 1]) +
      match last {
        case Heard(_) => []
        case Sent(r) =>
          RequestFits(order, r);
          Frame(order, PacketOf(order, r))
      }
  }

  /** The packets sent in the course of a trace. */
  function PacketsSent(order: ByteOrder, trace: seq<Entry>): seq<PacketData>
    requires forall i :: 0 <= i < |trace| && trace[i].Sent? ==> KnownStrings(trace[i].request)
  {
    if |trace| == 0 then []
    else
      var last := trace[|trace| - 1];
      PacketsSent(order, trace[..|trace| - 1]) +
      match last {
        case Heard(_) => []
        case Sent(r) =>
          RequestFits(order, r);
          [PacketOf(order, r)]
      }
  }

  lemma {:induction false} WireIsStream(order: ByteOrder, trace: seq<Entry>)
    requires forall i :: 0 <= i < |trace| && trace[i].Sent? ==> KnownStrings(trace[i].request)
    ensures AllFit(order, PacketsSent(order, trace))
    ensures WireOf(order, trace) == Stream(order, PacketsSent(order, trace))
    ensures forall i :: 0 <= i < |PacketsSent(order, trace)| ==> PacketsSent(order, trace)[i].opcode < 0x100
    decreases |trace|
  {
    hide KnownStrings, PacketOf, Serialize, Frame, Stream;
    if |trace| > 0 {
      var front, last := trace[..|trace| - 1], trace[|trace| - 1];
      WireIsStream(order, front);
      if last.Sent? {
        RequestFits(order, last.request);
        SmallOpcode(order, last.request);
        Interleaving.StreamAppend(order, PacketsSent(order, front), PacketOf(order, last.request));
      } else {
        assert PacketsSent(order, front) + [] == PacketsSent(order, front);
        assert WireOf(order, front) + [] == WireOf(order, front);
      }
    } else {
      EmptyStream(order);
    }
  }

  lemma EmptyStream(order: ByteOrder)
    ensures Stream(order, []) == []
  {
  }

  lemma SmallOpcode(order: ByteOrder, r: Clipboard.Request)
    requires AllEncodable(ArgsOf(r))
    ensures PacketOf(order, r).opcode < 0x100
  {
    hide EncodeAll;
  }

  /** From the program's requests to the compositor's packets: however the socket cuts the stream, the
      receiver gets one packet per request, in order, unchanged. */
  lemma CompositorReceivesRequests(order: ByteOrder, trace: seq<Entry>, firsts: seq<nat>)
    requires forall i :: 0 <= i < |trace| && trace[i].Sent? ==> KnownStrings(trace[i].request)
    requires |firsts| == |PacketsSent(order, trace)| && forall i :: 0 <= i < |firsts| ==> 0 < firsts[i] <= 8
    ensures ReceiveAll(order, WireOf(order, trace), firsts) == Some((PacketsSent(order, trace), []))
  {
    hide KnownStrings, PacketsSent, WireOf, ReceiveAll, Stream, Serialize;
    WireIsStream(order, trace);
    ConversationRoundTripIff(order, PacketsSent(order, trace), [], firsts);
    assert Stream(order, PacketsSent(order, trace)) + [] == Stream(order, PacketsSent(order, trace));
  }

  lemma NothingWritten(order: ByteOrder)
    ensures WireOf(order, []) == []
  {
  }

  lemma GetRegistryIsKnown(id: Id)
    ensures KnownStrings(GetRegistry(id))
  {
  }

  class ClipboardOwner {
    const conn: Connection
    var registryId: Option<Id>
    var seatId: Option<Id>
    var clipboardManagerId: Option<Id>
    var clipboardDeviceId: Option<Id>
    var clipboardData: Option<Text>
    var clipboardSourceId: Option<Id>
    var incomingOfferId: Option<Id>
    /** What was done to the descriptors handed over by the compositor. */
    var pipes: seq<PipeAction>
    /** What was sent and heard so far. */
    ghost var trace: seq<Entry>

    ghost function View(): State
      reads this, conn
    {
      State(Data(registryId, seatId, clipboardManagerId, clipboardDeviceId, clipboardData, clipboardSourceId,
                 incomingOfferId),
            conn.nextObjectId, trace, pipes)
    }

    /** The socket carries exactly the frames of the requests in the trace. */
    ghost predicate Valid()
      reads this, conn, conn.socket
    {
      && (forall i :: 0 <= i < |trace| && trace[i].Sent? ==> KnownStrings(trace[i].request))
      && conn.socket.outgoing == WireOf(conn.order, trace)
    }

    constructor (conn: Connection)
      requires conn.nextObjectId == 2 && conn.socket.outgoing == []
      modifies conn`nextObjectId, conn.socket`outgoing
      ensures this.conn == conn && Valid() && View() == INIT
    {
      this.conn := conn;
      registryId, seatId, clipboardManagerId, clipboardDeviceId := None, None, None, None;
      clipboardData, clipboardSourceId, incomingOfferId := None, None, None;
      pipes, trace := [], [];
      new;
      hide WireOf, KnownStrings;
      NothingWritten(conn.order);
      var id := conn.GetAndIncrementNextObjectId();
      GetRegistryIsKnown(id);
      SendRequest(GetRegistry(id));
      registryId := Some(id);
      assert [] + [Sent(GetRegistry(id))] == INIT.trace;
    }

    /** Build the request's packet with the generated code and send it. */
    method SendRequest(r: Clipboard.Request)
      requires Valid() && KnownStrings(r)
      modifies this`trace, conn.socket`outgoing
      ensures Valid() && trace == old(trace) + [Sent(r)]
    {
      hide KnownStrings, AllEncodable, ArgsOf, ProcedureOf, OpcodeOf, TargetOf, Frame, PacketOf, StructInto, Writable,
        Serialize, GeneratedCode.Bind;
      RequestPacket(conn.order, r);
      var packet := TryIntoPacket(conn.order, StructFor(Generator.Request, OpcodeOf(r), ProcedureOf(r)),
                                  GeneratedCode.Bind(NamesOf(ProcedureOf(r).args), ArgsOf(r)), TargetOf(r));
      var sent := conn.SendPacket(packet);
      assert sent == Ok(());
      trace := trace + [Sent(r)];
      assert trace[..|trace| - 1] == old(trace);
    }

    /** The arguments of an event, through the generated argument struct. */
    method EventArgs(opcode: u16, event: Procedure, packet: Packet) returns (r: Result<seq<WireValue>, Error>)
      requires Compiles(event)
      ensures r == DecodeArgs(packet.order, event, packet.View())
    {
      hide Decode;
      StructIsDecode(packet.order, Event, opcode, event, packet.View());
      var fields :- TryFromPacket(StructFor(Event, opcode, event), packet);
      PickBind(NamesOf(event.args), DecodeArgs(packet.order, event, packet.View()).value);
      return Ok(Pick(fields, NamesOf(event.args)));
    }

    method ObtainDataDeviceIfReady()
      requires Valid()
      modifies this`trace, this`clipboardDeviceId, conn`nextObjectId, conn.socket`outgoing
      ensures Valid() && View() == Clipboard.ObtainDataDeviceIfReady(old(View()))
    {
      if clipboardManagerId.None? {
        return;
      }
      if seatId.None? {
        return;
      }
      var newId := conn.GetAndIncrementNextObjectId();
      SendRequest(GetDataDevice(clipboardManagerId.value, newId, seatId.value));
      clipboardDeviceId := Some(newId);
    }

    method CopyDispatch(newContent: Text)
      requires Valid()
      modifies this`trace, this`clipboardData, this`clipboardSourceId, conn`nextObjectId, conn.socket`outgoing
      ensures Valid() && View() == Copied(old(View()), newContent)
    {
      hide PlainTextMimeTypes, WireOf;
      clipboardData := Some(newContent);
      if clipboardSourceId.Some? {
        return;
      }
      if clipboardManagerId.None? {
        return;
      }
      if clipboardDeviceId.None? {
        return;
      }
      var managerId, deviceId := clipboardManagerId.value, clipboardDeviceId.value;
      var sourceId := conn.GetAndIncrementNextObjectId();
      SendRequest(CreateDataSource(managerId, sourceId));
      ghost var created := trace;
      var types := PlainTextMimeTypes();
      for i := 0 to |types|
        invariant Valid()
        invariant trace == created + Offers(sourceId, types)[..i]
        invariant clipboardData == Some(newContent) && clipboardSourceId.None?
        invariant conn.nextObjectId == NextId(old(conn.nextObjectId)).1
      {
        SendRequest(Offer(sourceId, types[i]));
      }
      SendRequest(SetSelection(deviceId, sourceId));
      clipboardSourceId := Some(sourceId);
      assert trace == old(trace) + Publication(managerId, deviceId, sourceId);
    }

    method ClearDispatch()
      requires Valid()
      modifies this`trace, this`clipboardData, this`clipboardSourceId, conn.socket`outgoing
      ensures Valid() && View() == Cleared(old(View()))
    {
      clipboardData := None;
      if clipboardSourceId.None? {
        return;
      }
      SendRequest(DestroySource(clipboardSourceId.value));
      clipboardSourceId := None;
    }

    /** A `send` event: write the content if the type is one of ours and there is content, and in any
        case close the descriptor. */
    method ServeContent(mimeType: Text, fd: Fd)
      modifies this`pipes
      ensures View() == Serve(old(View()), mimeType, fd)
    {
      hide PlainTextMimeTypes;
      MimeTypesSorted();
      var known := BinarySearchIsOk(PlainTextMimeTypes(), mimeType);
      if known {
        if clipboardData.Some? {
          pipes := pipes + [WriteTo(fd, clipboardData.value)];
        }
      }
      pipes := pipes + [CloseFd(fd)];
    }

    /** The `global` arm: bind the seat or the clipboard manager, once each. */
    method BindGlobal(name: u32, interfaceName: Text, version: u32)
      requires Valid() && registryId.Some?
      modifies this`trace, this`seatId, this`clipboardManagerId, this`clipboardDeviceId, conn`nextObjectId,
               conn.socket`outgoing
      ensures Valid()
      ensures View() == Clipboard.BindGlobal(old(View()), old(registryId).value, name, interfaceName, version)
    {
      hide WireOf, WlSeat, DataControlManager;
      SeatIsNotManager();
      if interfaceName == WlSeat() {
        if seatId.Some? {
          return;
        }
        var newSeatId := conn.GetAndIncrementNextObjectId();
        SendRequest(Clipboard.Bind(registryId.value, name, interfaceName, version, newSeatId));
        seatId := Some(newSeatId);
        ObtainDataDeviceIfReady();
      } else if interfaceName == DataControlManager() {
        if clipboardManagerId.Some? {
          return;
        }
        var newManagerId := conn.GetAndIncrementNextObjectId();
        SendRequest(Clipboard.Bind(registryId.value, name, interfaceName, version, newManagerId));
        clipboardManagerId := Some(newManagerId);
        ObtainDataDeviceIfReady();
      }
    }

    /** Decode an event whose arguments are only logged. */
    method DecodeOnly(opcode: u16, event: Procedure, packet: Packet) returns (survived: bool)
      requires Compiles(event) && packet.order == conn.order
      ensures survived <==> DecodeArgs(conn.order, event, packet.View()).Ok?
    {
      var args := EventArgs(opcode, event, packet);
      survived := args.Ok?;
    }

    /** The new state is the one the state function gives; if that gives none, the program panicked. */
    method WaylandDispatch(packet: Packet) returns (survived: bool)
      requires Valid() && packet.order == conn.order
      modifies this, conn`nextObjectId, conn.socket`outgoing
      ensures Clipboard.Dispatched(conn.order, old(View()), packet.View()).Some? <==> survived
      ensures survived ==> Valid() && Some(View()) == Clipboard.Dispatched(conn.order, old(View()), packet.View())
    {
      hide Decode, WireOf, Clipboard.BindGlobal, Serve, Compiles;
      EventsAllCompile();
      trace := trace + [Heard(packet.View())];
      assert Valid() by {
        HeardKeepsWire(conn.order, old(trace), packet.View());
      }
      var id := packet.objectId;
      if id == DISPLAY {
        if packet.opcode == ERROR_OPCODE {
          survived := DecodeOnly(ERROR_OPCODE, DISPLAY_ERROR, packet);
        } else {
          survived := true;
        }
      } else if Some(id) == registryId {
        survived := DispatchRegistry(packet);
      } else if Some(id) == clipboardSourceId {
        survived := DispatchSource(packet);
      } else if Some(id) == seatId {
        survived := DispatchSeat(packet);
      } else if Some(id) == clipboardDeviceId {
        survived := DispatchDevice(packet);
      } else if Some(id) == clipboardManagerId {
        survived := true;
      } else if Some(id) == incomingOfferId {
        if packet.opcode == OFFER_OPCODE {
          survived := DecodeOnly(OFFER_OPCODE, OFFER_OFFER, packet);
        } else {
          survived := true;
        }
      } else {
        survived := true;
      }
    }

    method DispatchRegistry(packet: Packet) returns (survived: bool)
      requires Valid() && packet.order == conn.order && registryId == Some(packet.objectId)
      modifies this`trace, this`seatId, this`clipboardManagerId, this`clipboardDeviceId, conn`nextObjectId,
               conn.socket`outgoing
      ensures OnRegistry(conn.order, old(View()), packet.View()).Some? <==> survived
      ensures survived ==> Valid() && Some(View()) == OnRegistry(conn.order, old(View()), packet.View())
    {
      hide DecodeArgs, WireOf, Clipboard.BindGlobal, Compiles;
      EventsAllCompile();
      if packet.opcode != GLOBAL_OPCODE {
        return true;
      }
      var args := EventArgs(GLOBAL_OPCODE, REGISTRY_GLOBAL, packet);
      if args.Err? || !GlobalArgs(args.value) {
        return false;
      }
      BindGlobal(args.value[0].uint, args.value[1].text, args.value[2].uint);
      return true;
    }

    method DispatchSource(packet: Packet) returns (survived: bool)
      requires Valid() && packet.order == conn.order
      modifies this`clipboardData, this`clipboardSourceId, this`pipes
      ensures OnSource(conn.order, old(View()), packet.View()).Some? <==> survived
      ensures survived ==> Valid() && Some(View()) == OnSource(conn.order, old(View()), packet.View())
    {
      hide DecodeArgs, WireOf, Serve, Compiles;
      EventsAllCompile();
      if packet.opcode == SEND_OPCODE {
        var args := EventArgs(SEND_OPCODE, SOURCE_SEND, packet);
        if args.Err? || !SendArgs(args.value) {
          return false;
        }
        ServeContent(args.value[0].text, args.value[1].fd);
      } else if packet.opcode == CANCELLED_OPCODE {
        clipboardData := None;
        clipboardSourceId := None;
      }
      return true;
    }

    method DispatchSeat(packet: Packet) returns (survived: bool)
      requires Valid() && packet.order == conn.order
      ensures OnSeat(conn.order, View(), packet.View()) == if survived then Some(View()) else None
    {
      hide DecodeArgs, Compiles;
      EventsAllCompile();
      if packet.opcode == CAPABILITIES_OPCODE {
        survived := DecodeOnly(CAPABILITIES_OPCODE, SEAT_CAPABILITIES, packet);
      } else if packet.opcode == NAME_OPCODE {
        survived := DecodeOnly(NAME_OPCODE, SEAT_NAME, packet);
      } else {
        survived := true;
      }
    }

    method DispatchDevice(packet: Packet) returns (survived: bool)
      requires Valid() && packet.order == conn.order
      modifies this`incomingOfferId
      ensures OnDevice(conn.order, old(View()), packet.View()).Some? <==> survived
      ensures survived ==> Valid() && Some(View()) == OnDevice(conn.order, old(View()), packet.View())
    {
      hide DecodeArgs, WireOf, Compiles;
      EventsAllCompile();
      if packet.opcode == DATA_OFFER_OPCODE {
        var args := EventArgs(DATA_OFFER_OPCODE, DEVICE_DATA_OFFER, packet);
        survived := args.Ok? && |args.value| == 1 && args.value[0].NewIdV?;
        if survived {
          incomingOfferId := Some(args.value[0].newId);
        }
      } else if packet.opcode == SELECTION_OPCODE {
        survived := DecodeOnly(SELECTION_OPCODE, DEVICE_SELECTION, packet);
      } else if packet.opcode == FINISHED_OPCODE {
        survived := DecodeOnly(FINISHED_OPCODE, DEVICE_FINISHED, packet);
      } else if packet.opcode == PRIMARY_SELECTION_OPCODE {
        survived := DecodeOnly(PRIMARY_SELECTION_OPCODE, DEVICE_PRIMARY_SELECTION, packet);
      } else {
        survived := true;
      }
    }
  }

  lemma EventsAllCompile()
    ensures Compiles(DISPLAY_ERROR) && Compiles(REGISTRY_GLOBAL) && Compiles(SOURCE_SEND)
    ensures Compiles(SEAT_CAPABILITIES) && Compiles(SEAT_NAME) && Compiles(OFFER_OFFER)
    ensures Compiles(DEVICE_DATA_OFFER) && Compiles(DEVICE_SELECTION) && Compiles(DEVICE_FINISHED)
    ensures Compiles(DEVICE_PRIMARY_SELECTION)
  {
  }

  lemma HeardKeepsWire(order: ByteOrder, trace: seq<Entry>, p: PacketData)
    requires forall i :: 0 <= i < |trace| && trace[i].Sent? ==> KnownStrings(trace[i].request)
    ensures WireOf(order, trace + [Heard(p)]) == WireOf(order, trace)
  {
    hide KnownStrings;
    assert (trace + [Heard(p)])[..|trace|] == trace;
  }
}
