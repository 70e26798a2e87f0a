/** The other end of the wire: a compositor that knows the interfaces, and which object has which, reads
    the bytes that the program has sent and gets exactly the requests it made. */
module ClipboardWire {
  import opened Numbers
  import opened Outcomes
  import opened Utf8
  import opened Packets
  import opened Codec
  import opened Generator
  import opened GeneratedCode
  import opened FormsAgree
  import opened Framing
  import opened Clipboard
  import opened ClipboardOwning
  import opened ClipboardRuns
  import opened ClipboardProtocol

  // ----- the interfaces -----

  datatype ObjectKind = DisplayObject | RegistryObject | SeatObject | ManagerObject | DeviceObject | SourceObject

  const WL_DISPLAY := Interface("wl_display", 1,
    [Procedure("sync", [Arg("callback", NewId, Some("wl_callback"))]), GET_REGISTRY],
    [DISPLAY_ERROR, Procedure("delete_id", [Arg("id", Uint, None)])])

  const WL_REGISTRY := Interface("wl_registry", 1, [BIND], [REGISTRY_GLOBAL, REGISTRY_GLOBAL_REMOVE])

  const WL_SEAT := Interface("wl_seat", 10,
    [Procedure("get_pointer", [Arg("id", NewId, Some("wl_pointer"))]),
     Procedure("get_keyboard", [Arg("id", NewId, Some("wl_keyboard"))]),
     Procedure("get_touch", [Arg("id", NewId, Some("wl_touch"))]),
     Procedure("release", [])],
    [SEAT_CAPABILITIES, SEAT_NAME])

  const DATA_CONTROL_MANAGER := Interface("ext_data_control_manager_v1", 1,
    [CREATE_DATA_SOURCE, GET_DATA_DEVICE, Procedure("destroy", [])], [])

  const DATA_CONTROL_DEVICE := Interface("ext_data_control_device_v1", 1,
    [SET_SELECTION, Procedure("destroy", []),
     Procedure("set_primary_selection", [Arg("source", ObjectId, Some("ext_data_control_source_v1"))])],
    [DEVICE_DATA_OFFER, DEVICE_SELECTION, DEVICE_FINISHED, DEVICE_PRIMARY_SELECTION])

  const DATA_CONTROL_SOURCE := Interface("ext_data_control_source_v1", 1,
    [SOURCE_OFFER, SOURCE_DESTROY], [SOURCE_SEND, Procedure("cancelled", [])])

  function InterfaceOf(k: ObjectKind): Interface {
    match k
    case DisplayObject => WL_DISPLAY
    case RegistryObject => WL_REGISTRY
    case SeatObject => WL_SEAT
    case ManagerObject => DATA_CONTROL_MANAGER
    case DeviceObject => DATA_CONTROL_DEVICE
    case SourceObject => DATA_CONTROL_SOURCE
  }

  /** The opcode of an event is its position in its interface. */
  predicate EventAt(i: Interface, opcode: nat, name: string) {
    opcode < |i.events| && i.events[opcode].name == name
  }

  lemma EventPositions()
    ensures EventAt(WL_DISPLAY, ERROR_OPCODE, "error")
    ensures EventAt(WL_REGISTRY, GLOBAL_OPCODE, "global")
    ensures EventAt(WL_REGISTRY, GLOBAL_REMOVE_OPCODE, "global_remove")
    ensures EventAt(WL_SEAT, CAPABILITIES_OPCODE, "capabilities") && EventAt(WL_SEAT, NAME_OPCODE, "name")
    ensures EventAt(DATA_CONTROL_DEVICE, DATA_OFFER_OPCODE, "data_offer")
    ensures EventAt(DATA_CONTROL_DEVICE, SELECTION_OPCODE, "selection")
    ensures EventAt(DATA_CONTROL_DEVICE, FINISHED_OPCODE, "finished")
    ensures EventAt(DATA_CONTROL_DEVICE, PRIMARY_SELECTION_OPCODE, "primary_selection")
    ensures EventAt(DATA_CONTROL_SOURCE, SEND_OPCODE, "send")
    ensures EventAt(DATA_CONTROL_SOURCE, CANCELLED_OPCODE, "cancelled")
  {
  }

  /** The strings the program looks for are the names of the interfaces. */
  lemma InterfaceNames()
    ensures WlSeat() == Ascii(WL_SEAT.name) && DataControlManager() == Ascii(DATA_CONTROL_MANAGER.name)
  {
  }

  // ----- reading one packet -----

  function NewIdIn(fields: Env, name: string): Option<Id> {
    if name in fields && fields[name].NewIdV? then Some(fields[name].newId) else None
  }

  function ObjectIn(fields: Env, name: string): Option<Id> {
    if name in fields && fields[name].ObjectV? then fields[name].object_ else None
  }

  function TextIn(fields: Env, name: string): Option<Text> {
    if name in fields && fields[name].StrV? then Some(fields[name].text) else None
  }

  function UintIn(fields: Env, name: string): Option<u32> {
    if name in fields && fields[name].UintV? then Some(fields[name].uint) else None
  }

  function NewObjectIn(fields: Env, name: string): Option<NewObject> {
    if name in fields && fields[name].NewObjectV? then Some(fields[name].newObject) else None
  }

  /** The request that a procedure of an object's interface, with these fields, stands for. */
  function FromFields(k: ObjectKind, procedure: string, target: Id, fields: Env): Option<Clipboard.Request> {
    match k
    case DisplayObject =>
      if target == DISPLAY && procedure == "get_registry" && NewIdIn(fields, "registry").Some? then
        Some(GetRegistry(NewIdIn(fields, "registry").value))
      else None
    case RegistryObject =>
      if procedure == "bind" && UintIn(fields, "name").Some? && NewObjectIn(fields, "id").Some? then
        var bound := NewObjectIn(fields, "id").value;
        Some(Clipboard.Bind(target, UintIn(fields, "name").value, bound.interfaceName, bound.interfaceVersion,
                            bound.objectId))
      else None
    case SeatObject => None
    case ManagerObject =>
      if procedure == "create_data_source" && NewIdIn(fields, "id").Some? then
        Some(CreateDataSource(target, NewIdIn(fields, "id").value))
      else if procedure == "get_data_device" && NewIdIn(fields, "id").Some? && ObjectIn(fields, "seat").Some? then
        Some(GetDataDevice(target, NewIdIn(fields, "id").value, ObjectIn(fields, "seat").value))
      else None
    case DeviceObject =>
      if procedure == "set_selection" && ObjectIn(fields, "source").Some? then
        Some(SetSelection(target, ObjectIn(fields, "source").value))
      else None
    case SourceObject =>
      if procedure == "offer" && TextIn(fields, "mime_type").Some? then
        Some(Offer(target, TextIn(fields, "mime_type").value))
      else if procedure == "destroy" then Some(DestroySource(target))
      else None
  }

  /** The procedure at the opcode's position, decoded by its generated struct. */
  function ReadRequest(order: ByteOrder, k: ObjectKind, p: PacketData): Option<Clipboard.Request> {
    var requests := InterfaceOf(k).requests;
    if p.opcode >= |requests| then None
    else
      match StructFrom(order, StructFor(Generator.Request, p.opcode, requests[p.opcode]), p)
      case Err(_) => None
      case Ok(fields) => FromFields(k, requests[p.opcode].name, p.objectId, fields)
  }

  /** The kind of object a request is made to. */
  function TargetKind(r: Clipboard.Request): ObjectKind {
    match r
    case GetRegistry(_) => DisplayObject
    case Bind(_, _, _, _, _) => RegistryObject
    case CreateDataSource(_, _) => ManagerObject
    case GetDataDevice(_, _, _) => ManagerObject
    case Offer(_, _) => SourceObject
    case SetSelection(_, _) => DeviceObject
    case DestroySource(_) => SourceObject
  }

  lemma PositionOf(r: Clipboard.Request)
    ensures OpcodeOf(r) < |InterfaceOf(TargetKind(r)).requests|
    ensures InterfaceOf(TargetKind(r)).requests[OpcodeOf(r)] == ProcedureOf(r)
  {
  }

  lemma FieldsReadBack(r: Clipboard.Request)
    requires Compiles(ProcedureOf(r)) && |NamesOf(ProcedureOf(r).args)| == |ArgsOf(r)|
    ensures FromFields(TargetKind(r), ProcedureOf(r).name, TargetOf(r),
                       GeneratedCode.Bind(NamesOf(ProcedureOf(r).args), ArgsOf(r))) == Some(r)
  {
    hide GeneratedCode.Bind;
    var names, vs := NamesOf(ProcedureOf(r).args), ArgsOf(r);
    if |vs| > 0 {
      BindAt(names, vs, 0);
    }
    if |vs| > 1 {
      BindAt(names, vs, 1);
    }
  }

  /** Reading the packet of a request gives the request. */
  lemma ReadBack(order: ByteOrder, r: Clipboard.Request)
    requires KnownStrings(r)
    ensures AllEncodable(ArgsOf(r))
    ensures ReadRequest(order, TargetKind(r), PacketOf(order, r)) == Some(r)
  {
    hide KnownStrings, AllEncodable, ArgsOf, ProcedureOf, OpcodeOf, TargetOf, Serialize, EncodeAll, AllFds, Writable,
      StructInto, StructFrom, ProxyPacket, GeneratedCode.Bind, NamesOf, Compiles, FromFields, InterfaceOf, TargetKind;
    RequestFits(order, r);
    PositionOf(r);
    RequestPacket(order, r);
    StructRoundTrip(order, Generator.Request, OpcodeOf(r), ProcedureOf(r), TargetOf(r), ArgsOf(r));
    FieldsReadBack(r);
  }

  // ----- reading a whole stream -----

  type Table = map<Id, ObjectKind>

  /** What a request introduces. Of the globals the program may bind, only these are understood. */
  function Introduced(table: Table, r: Clipboard.Request): Table {
    match r
    case GetRegistry(id) => table[id := RegistryObject]
    case Bind(_, _, interfaceName, _, id) =>
      if interfaceName == WlSeat() then table[id := SeatObject]
      else if interfaceName == DataControlManager() then table[id := ManagerObject]
      else table
    case CreateDataSource(_, id) => table[id := SourceObject]
    case GetDataDevice(_, id, _) => table[id := DeviceObject]
    case _ => table
  }

  /** Everything read so far, and which object has which interface. */
  datatype Reader = Reader(table: Table, requests: seq<Clipboard.Request>)

  function ReadOne(order: ByteOrder, reader: Reader, p: PacketData): Option<Reader> {
    if p.objectId !in reader.table then None
    else
      match ReadRequest(order, reader.table[p.objectId], p)
      case None => None
      case Some(r) => Some(Reader(Introduced(reader.table, r), reader.requests + [r]))
  }

  function ReadAll(order: ByteOrder, ps: seq<PacketData>): Option<Reader> {
    if |ps| == 0 then Some(Reader(map[DISPLAY := DisplayObject], []))
    else
      match ReadAll(order, ps[..|ps| - 1])
      case None => None
      case Some(reader) => ReadOne(order, reader, ps[|ps| - 1])
  }

  lemma ReadOneMore(order: ByteOrder, ps: seq<PacketData>, p: PacketData)
    ensures ReadAll(order, ps + [p])
         == if ReadAll(order, ps).None? then None else ReadOne(order, ReadAll(order, ps).value, p)
  {
    hide ReadOne;
    assert (ps + [p])[..|ps|] == ps;
  }

  function RequestsIn(trace: seq<Entry>): seq<Clipboard.Request> {
    if |trace| == 0 then []
    else
      var last := trace[|trace| - 1];
      RequestsIn(trace[..|trace| - 1]) + if last.Sent? then [last.request] else []
  }

  function TableOf(trace: seq<Entry>): Table {
    if |trace| == 0 then map[DISPLAY := DisplayObject]
    else
      var last := trace[|trace| - 1];
      var table := TableOf(trace[..|trace| - 1]);
      if last.Sent? then Introduced(table, last.request) else table
  }

  /** The request uses strings the program knows, and is made to an object of the right kind. */
  predicate Addressed(table: Table, r: Clipboard.Request) {
    KnownStrings(r) && TargetOf(r) in table && table[TargetOf(r)] == TargetKind(r)
  }

  predicate AllAddressed(trace: seq<Entry>) {
    |trace| == 0 ||
    var front, last := trace[..|trace| - 1], trace[|trace| - 1];
    AllAddressed(front) && (last.Sent? ==> Addressed(TableOf(front), last.request))
  }

  lemma {:induction false} AddressedKnown(trace: seq<Entry>)
    requires AllAddressed(trace)
    ensures forall i :: 0 <= i < |trace| && trace[i].Sent? ==> KnownStrings(trace[i].request)
    decreases |trace|
  {
    hide KnownStrings, TableOf, TargetKind, TargetOf;
    if |trace| > 0 {
      AddressedKnown(trace[..|trace| - 1]);
      assert forall i :: 0 <= i < |trace| - 1 ==> trace[i] == trace[..|trace| - 1][i];
    }
  }

  /** Packets of well-addressed requests are read back, one by one. */
  lemma {:induction false} ReadsTrace(order: ByteOrder, trace: seq<Entry>)
    requires AllAddressed(trace)
    ensures forall i :: 0 <= i < |trace| && trace[i].Sent? ==> KnownStrings(trace[i].request)
    ensures ReadAll(order, PacketsSent(order, trace)) == Some(Reader(TableOf(trace), RequestsIn(trace)))
    decreases |trace|
  {
    hide KnownStrings, ReadRequest, Introduced, PacketOf, TargetKind, ReadAll;
    AddressedKnown(trace);
    if |trace| == 0 {
      NothingRead(order);
    } else {
      var front, last := trace[..|trace| - 1], trace[|trace| - 1];
      ReadsTrace(order, front);
      if last.Sent? {
        ReadBack(order, last.request);
        PacketTarget(order, last.request);
        ReadOneMore(order, PacketsSent(order, front), PacketOf(order, last.request));
      } else {
        assert PacketsSent(order, front) + [] == PacketsSent(order, front);
        assert RequestsIn(front) + [] == RequestsIn(front);
      }
    }
  }

  lemma PacketTarget(order: ByteOrder, r: Clipboard.Request)
    requires AllEncodable(ArgsOf(r))
    ensures PacketOf(order, r).objectId == TargetOf(r)
  {
    hide EncodeAll, AllFds;
  }

  lemma NothingRead(order: ByteOrder)
    ensures ReadAll(order, []) == Some(Reader(map[DISPLAY := DisplayObject], []))
  {
  }

  // ----- every run is well addressed -----

  predicate KindIs(table: Table, field: Option<Id>, k: ObjectKind) {
    field.Some? ==> field.value in table && table[field.value] == k
  }

  predicate FieldsFit(d: Data, table: Table) {
    && KindIs(table, Some(DISPLAY), DisplayObject)
    && KindIs(table, d.registryId, RegistryObject)
    && KindIs(table, d.seatId, SeatObject)
    && KindIs(table, d.clipboardManagerId, ManagerObject)
    && KindIs(table, d.clipboardDeviceId, DeviceObject)
    && KindIs(table, d.clipboardSourceId, SourceObject)
  }

  predicate Fits(s: State) {
    && AllAddressed(s.trace) && FieldsFit(s.data, TableOf(s.trace))
    && forall id :: id in TableOf(s.trace) ==> id < s.nextObjectId
  }

  lemma AddressedOne(trace: seq<Entry>, e: Entry)
    ensures AllAddressed(trace + [e])
       <==> AllAddressed(trace) && (e.Sent? ==> Addressed(TableOf(trace), e.request))
    ensures TableOf(trace + [e]) == if e.Sent? then Introduced(TableOf(trace), e.request) else TableOf(trace)
  {
    hide Addressed, Introduced;
    assert (trace + [e])[..|trace|] == trace;
  }

  lemma FitsAfter(s: State, s': State, e: Entry)
    requires Fits(s) && s'.trace == s.trace + [e]
    requires e.Sent? ==> Addressed(TableOf(s.trace), e.request)
    requires var table := if e.Sent? then Introduced(TableOf(s.trace), e.request) else TableOf(s.trace);
             FieldsFit(s'.data, table) && forall id :: id in table ==> id < s'.nextObjectId
    ensures Fits(s')
  {
    hide Addressed, Introduced, FieldsFit, AllAddressed, TableOf;
    AddressedOne(s.trace, e);
  }

  lemma SeatFits(s: State, name: u32, version: u32)
    requires Fits(s) && s.data.registryId == Some(REGISTRY) && s.data.seatId.None?
    requires NextId(s.nextObjectId) == (s.nextObjectId, s.nextObjectId + 1)
    ensures Fits(Send(s, Clipboard.Bind(REGISTRY, name, WlSeat(), version, s.nextObjectId))
                   .(nextObjectId := s.nextObjectId + 1, data := s.data.(seatId := Some(s.nextObjectId))))
  {
    hide AllAddressed, TableOf, WlSeat, DataControlManager, PlainTextMimeTypes;
    var r := Clipboard.Bind(REGISTRY, name, WlSeat(), version, s.nextObjectId);
    FitsAfter(s, Send(s, r).(nextObjectId := s.nextObjectId + 1, data := s.data.(seatId := Some(s.nextObjectId))),
              Sent(r));
  }

  lemma ManagerFits(s: State, name: u32, version: u32)
    requires Fits(s) && s.data.registryId == Some(REGISTRY) && s.data.clipboardManagerId.None?
    requires NextId(s.nextObjectId) == (s.nextObjectId, s.nextObjectId + 1)
    ensures Fits(Send(s, Clipboard.Bind(REGISTRY, name, DataControlManager(), version, s.nextObjectId))
                   .(nextObjectId := s.nextObjectId + 1, data := s.data.(clipboardManagerId := Some(s.nextObjectId))))
  {
    hide AllAddressed, TableOf, WlSeat, DataControlManager, PlainTextMimeTypes;
    SeatIsNotManager();
    var r := Clipboard.Bind(REGISTRY, name, DataControlManager(), version, s.nextObjectId);
    FitsAfter(s, Send(s, r).(nextObjectId := s.nextObjectId + 1,
                             data := s.data.(clipboardManagerId := Some(s.nextObjectId))),
              Sent(r));
  }

  lemma DeviceFits(s: State)
    requires Fits(s) && s.data.clipboardDeviceId.None?
    requires s.data.seatId.Some? && s.data.clipboardManagerId.Some? ==>
               NextId(s.nextObjectId) == (s.nextObjectId, s.nextObjectId + 1)
    ensures Fits(ObtainDataDeviceIfReady(s))
  {
    hide AllAddressed, TableOf, NextId;
    if s.data.seatId.Some? && s.data.clipboardManagerId.Some? {
      var r := GetDataDevice(s.data.clipboardManagerId.value, s.nextObjectId, s.data.seatId.value);
      FitsAfter(s, ObtainDataDeviceIfReady(s), Sent(r));
    }
  }

  lemma GlobalFits(s: State, name: u32, interfaceName: Text, version: u32)
    requires Fits(s) && Shape(s) && IdsInOrder(s)
    requires |NewIds(BindGlobal(s, REGISTRY, name, interfaceName, version).trace)| <= MAX_IDS
    ensures Fits(BindGlobal(s, REGISTRY, name, interfaceName, version))
  {
    hide WlSeat, DataControlManager, Fits, IdsInOrder, NextId, NewIds, ObtainDataDeviceIfReady;
    SeatIsNotManager();
    if BindGlobal(s, REGISTRY, name, interfaceName, version) != s {
      BindGlobalRoom(s, REGISTRY, name, interfaceName, version);
      var sent := Send(s, Clipboard.Bind(REGISTRY, name, interfaceName, version, s.nextObjectId))
                    .(nextObjectId := s.nextObjectId + 1);
      if interfaceName == WlSeat() {
        SeatFits(s, name, version);
        DeviceFits(sent.(data := s.data.(seatId := Some(s.nextObjectId))));
      } else {
        ManagerFits(s, name, version);
        DeviceFits(sent.(data := s.data.(clipboardManagerId := Some(s.nextObjectId))));
      }
    }
  }

  lemma HeardFits(s: State, p: PacketData)
    requires Fits(s)
    ensures Fits(Hearing(s, p))
  {
    hide AllAddressed, TableOf;
    FitsAfter(s, Hearing(s, p), Heard(p));
  }

  lemma PacketFits(order: ByteOrder, s: State, p: PacketData)
    requires Fits(s) && Shape(s) && IdsInOrder(s) && OnPacket(order, Hearing(s, p), p).Some?
    requires |NewIds(OnPacket(order, Hearing(s, p), p).value.trace)| <= MAX_IDS
    ensures Fits(OnPacket(order, Hearing(s, p), p).value)
  {
    hide OnPacket, BindGlobal, NewIds, IdsInOrder, PlainTextMimeTypes, Announces, AllAddressed, TableOf;
    var h := Hearing(s, p);
    HeardFits(s, p);
    HeardDrawsNothing(s, p);
    var name, interfaceName, version, _, _ := PacketCases(order, h, p);
    if p.objectId == REGISTRY && OnPacket(order, h, p).value == BindGlobal(h, REGISTRY, name, interfaceName, version) {
      GlobalFits(h, name, interfaceName, version);
    }
  }

  lemma ClearFits(s: State)
    requires Fits(s)
    ensures Fits(Cleared(s))
  {
    hide AllAddressed, TableOf;
    if s.data.clipboardSourceId.Some? {
      FitsAfter(s, Cleared(s), Sent(DestroySource(s.data.clipboardSourceId.value)));
    }
  }

  lemma {:induction false} OffersAddressed(trace: seq<Entry>, source: Id, mimeTypes: seq<Text>)
    requires AllAddressed(trace) && KindIs(TableOf(trace), Some(source), SourceObject)
    requires forall i :: 0 <= i < |mimeTypes| ==> mimeTypes[i] in PlainTextMimeTypes()
    ensures AllAddressed(trace + Offers(source, mimeTypes))
    ensures TableOf(trace + Offers(source, mimeTypes)) == TableOf(trace)
    decreases |mimeTypes|
  {
    hide AllAddressed, TableOf, PlainTextMimeTypes;
    if |mimeTypes| == 0 {
      assert trace + Offers(source, mimeTypes) == trace;
    } else {
      var front, last := mimeTypes[..|mimeTypes| - 1], mimeTypes[|mimeTypes| - 1];
      OffersAddressed(trace, source, front);
      AddressedOne(trace + Offers(source, front), Sent(Offer(source, last)));
      assert trace + Offers(source, mimeTypes) == trace + Offers(source, front) + [Sent(Offer(source, last))];
    }
  }

  lemma PublicationAddressed(trace: seq<Entry>, manager: Id, device: Id, source: Id)
    requires AllAddressed(trace) && source !in TableOf(trace)
    requires KindIs(TableOf(trace), Some(manager), ManagerObject)
    requires KindIs(TableOf(trace), Some(device), DeviceObject)
    ensures AllAddressed(trace + Publication(manager, device, source))
    ensures TableOf(trace + Publication(manager, device, source)) == TableOf(trace)[source := SourceObject]
  {
    hide AllAddressed, TableOf, PlainTextMimeTypes;
    var types := PlainTextMimeTypes();
    var create, selection := Sent(CreateDataSource(manager, source)), Sent(SetSelection(device, source));
    AddressedOne(trace, create);
    OffersAddressed(trace + [create], source, types);
    AddressedOne(trace + [create] + Offers(source, types), selection);
    assert trace + Publication(manager, device, source) == trace + [create] + Offers(source, types) + [selection];
  }

  lemma CopyFits(s: State, content: Text)
    requires Fits(s) && Shape(s) && IdsInOrder(s) && |NewIds(Copied(s, content).trace)| <= MAX_IDS
    ensures Fits(Copied(s, content))
  {
    hide AllAddressed, TableOf, PlainTextMimeTypes, Publication, NewIds, NextId;
    if Publishes(s) {
      var m, d, id := s.data.clipboardManagerId.value, s.data.clipboardDeviceId.value, NextId(s.nextObjectId).0;
      NewIdsConcat(s.trace, Publication(m, d, id));
      NewIdsOfPublication(m, d, id);
      NextIdFresh(s.nextObjectId);
      PublicationAddressed(s.trace, m, d, id);
    }
  }

  lemma InitialFits()
    ensures Fits(INIT)
  {
    AddressedOne([], Sent(GetRegistry(REGISTRY)));
    assert [] + [Sent(GetRegistry(REGISTRY))] == INIT.trace;
  }

  lemma {:induction false} EveryRunFits(order: ByteOrder, inputs: seq<Input>)
    requires Run(order, inputs).Some? && |NewIds(Run(order, inputs).value.trace)| <= MAX_IDS
    ensures Fits(Run(order, inputs).value)
    decreases |inputs|
  {
    hide Copied, Cleared, OnPacket, Shape, IdsInOrder, NewIds, Fits;
    if |inputs| == 0 {
      InitialFits();
    } else {
      var s, input := Run(order, inputs[..|inputs| - 1]).value, inputs[|inputs| - 1];
      NewIdsGrow(order, s, input);
      EveryRunFits(order, inputs[..|inputs| - 1]);
      EveryState(order, inputs[..|inputs| - 1]);
      match input {
        case Copy(content) => CopyFits(s, content);
        case Clear => ClearFits(s);
        case Incoming(p) => PacketFits(order, s, p);
      }
    }
  }

  /** From request to request through the bytes: in every run, however the socket cuts the stream, a
      compositor that receives and reads it gets exactly the requests the program made, in order. */
  lemma CompositorReadsRequests(order: ByteOrder, inputs: seq<Input>, firsts: seq<nat>)
    requires Run(order, inputs).Some? && |NewIds(Run(order, inputs).value.trace)| <= MAX_IDS
    requires |firsts| == |RequestsIn(Run(order, inputs).value.trace)|
    requires forall i :: 0 <= i < |firsts| ==> 0 < firsts[i] <= 8
    ensures var trace := Run(order, inputs).value.trace;
            && (forall i :: 0 <= i < |trace| && trace[i].Sent? ==> KnownStrings(trace[i].request))
            && var received := ReceiveAll(order, WireOf(order, trace), firsts);
               && received.Some? && received.value.1 == []
               && ReadAll(order, received.value.0).Some?
               && ReadAll(order, received.value.0).value.requests == RequestsIn(trace)
  {
    hide Run, NewIds, KnownStrings, RequestsIn, WireOf, ReceiveAll, ReadAll, PacketsSent, AllAddressed, TableOf;
    EveryRunFits(order, inputs);
    var trace := Run(order, inputs).value.trace;
    ReadsTrace(order, trace);
    PacketPerRequest(order, trace);
    CompositorReceivesRequests(order, trace, firsts);
  }

  lemma {:induction false} PacketPerRequest(order: ByteOrder, trace: seq<Entry>)
    requires forall i :: 0 <= i < |trace| && trace[i].Sent? ==> KnownStrings(trace[i].request)
    ensures |PacketsSent(order, trace)| == |RequestsIn(trace)|
    decreases |trace|
  {
    hide KnownStrings, PacketOf;
    if |trace| > 0 {
      PacketPerRequest(order, trace[..|trace| - 1]);
    }
  }
}
