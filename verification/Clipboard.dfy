/** The clipboard owner, one-true-pairing/src/main.rs: its state, what each event does to it, and the
    methods that do it on a real connection. */
module Clipboard {
  import opened Numbers
  import opened Outcomes
  import opened Utf8
  import opened Packets
  import opened Codec
  import opened PacketBuffer
  import opened Generator
  import opened GeneratedCode
  import opened FormsAgree
  import opened Framing

  type Id = Packets.ObjectId
  type Text = seq<byte>

  const DISPLAY: Id := 1
  const REGISTRY: Id := 2

  function WlSeat(): Text {
    Ascii("wl_seat")
  }

  function DataControlManager(): Text {
    Ascii("ext_data_control_manager_v1")
  }

  lemma SeatIsNotManager()
    ensures WlSeat() != DataControlManager()
  {
    assert |WlSeat()| == 7 && |DataControlManager()| == 27;
  }

  /** `PLAIN_TEXT_MIME_TYPES_SORTED` */
  function PlainTextMimeTypes(): seq<Text> {
    [Ascii("STRING"), Ascii("TEXT"), Ascii("UTF8_STRING"), Ascii("text/plain"), Ascii("text/plain;charset=utf-8")]
  }

  // ----- the procedures involved, as generated -----

  const GET_REGISTRY := Procedure("get_registry", [Arg("registry", NewId, Some("wl_registry"))])
  const BIND := Procedure("bind", [Arg("name", Uint, None), Arg("id", NewId, None)])
  const CREATE_DATA_SOURCE := Procedure("create_data_source", [Arg("id", NewId, Some("ext_data_control_source_v1"))])
  const GET_DATA_DEVICE := Procedure("get_data_device", [
    Arg("id", NewId, Some("ext_data_control_device_v1")),
    Arg("seat", ObjectId, Some("wl_seat"))
  ])
  const SOURCE_OFFER := Procedure("offer", [Arg("mime_type", String, None)])
  const SOURCE_DESTROY := Procedure("destroy", [])
  const SET_SELECTION := Procedure("set_selection", [Arg("source", ObjectId, Some("ext_data_control_source_v1"))])

  const DISPLAY_ERROR := Procedure("error", [
    Arg("object_id", ObjectId, None),
    Arg("code", Uint, None),
    Arg("message", String, None)
  ])
  const REGISTRY_GLOBAL := Procedure("global", [
    Arg("name", Uint, None),
    Arg("interface", String, None),
    Arg("version", Uint, None)
  ])
  const SOURCE_SEND := Procedure("send", [Arg("mime_type", String, None), Arg("fd", FileDescriptor, None)])
  const SEAT_CAPABILITIES := Procedure("capabilities", [Arg("capabilities", Uint, None)])
  const SEAT_NAME := Procedure("name", [Arg("name", String, None)])
  const DEVICE_DATA_OFFER := Procedure("data_offer", [Arg("id", NewId, Some("ext_data_control_offer_v1"))])
  const DEVICE_SELECTION := Procedure("selection", [Arg("id", ObjectId, Some("ext_data_control_offer_v1"))])
  const DEVICE_FINISHED := Procedure("finished", [])
  const DEVICE_PRIMARY_SELECTION := Procedure("primary_selection", [
    Arg("id", ObjectId, Some("ext_data_control_offer_v1"))
  ])
  const OFFER_OFFER := Procedure("offer", [Arg("mime_type", String, None)])

  // Event opcodes: positions in the interface description.
  const ERROR_OPCODE := 0
  const GLOBAL_OPCODE := 0
  const SEND_OPCODE := 0
  const CANCELLED_OPCODE := 1
  const CAPABILITIES_OPCODE := 0
  const NAME_OPCODE := 1
  const DATA_OFFER_OPCODE := 0
  const SELECTION_OPCODE := 1
  const FINISHED_OPCODE := 2
  const PRIMARY_SELECTION_OPCODE := 3
  const OFFER_OPCODE := 0

  // ----- requests -----

  datatype Request =
    | GetRegistry(newId: Id)
    | Bind(registry: Id, name: u32, interfaceName: Text, version: u32, newId: Id)
    | CreateDataSource(manager: Id, newId: Id)
    | GetDataDevice(manager: Id, newId: Id, seat: Id)
    | Offer(source: Id, mimeType: Text)
    | SetSelection(device: Id, source: Id)
    | DestroySource(source: Id)

  function ProcedureOf(r: Request): Procedure {
    match r
    case GetRegistry(_) => GET_REGISTRY
    case Bind(_, _, _, _, _) => BIND
    case CreateDataSource(_, _) => CREATE_DATA_SOURCE
    case GetDataDevice(_, _, _) => GET_DATA_DEVICE
    case Offer(_, _) => SOURCE_OFFER
    case SetSelection(_, _) => SET_SELECTION
    case DestroySource(_) => SOURCE_DESTROY
  }

  function OpcodeOf(r: Request): u16 {
    match r
    case GetRegistry(_) => 1
    case Bind(_, _, _, _, _) => 0
    case CreateDataSource(_, _) => 0
    case GetDataDevice(_, _, _) => 1
    case Offer(_, _) => 0
    case SetSelection(_, _) => 0
    case DestroySource(_) => 1
  }

  function TargetOf(r: Request): Id {
    match r
    case GetRegistry(_) => DISPLAY
    case Bind(registry, _, _, _, _) => registry
    case CreateDataSource(manager, _) => manager
    case GetDataDevice(manager, _, _) => manager
    case Offer(source, _) => source
    case SetSelection(device, _) => device
    case DestroySource(source) => source
  }

  function ArgsOf(r: Request): seq<WireValue> {
    match r
    case GetRegistry(id) => [NewIdV(id)]
    case Bind(_, name, interfaceName, version, id) => [UintV(name), NewObjectV(NewObject(id, interfaceName, version))]
    case CreateDataSource(_, id) => [NewIdV(id)]
    case GetDataDevice(_, id, seat) => [NewIdV(id), ObjectV(Some(seat))]
    case Offer(_, mimeType) => [StrV(mimeType)]
    case SetSelection(_, source) => [ObjectV(Some(source))]
    case DestroySource(_) => []
  }

  /** The strings this program puts into requests. */
  predicate KnownStrings(r: Request) {
    && (r.Bind? ==> r.interfaceName == WlSeat() || r.interfaceName == DataControlManager())
    && (r.Offer? ==> r.mimeType in PlainTextMimeTypes())
  }

  // ----- state -----

  datatype Data = Data(
    registryId: Option<Id>,
    seatId: Option<Id>,
    clipboardManagerId: Option<Id>,
    clipboardDeviceId: Option<Id>,
    clipboardData: Option<Text>,
    clipboardSourceId: Option<Id>,
    incomingOfferId: Option<Id>)

  /** What happened on the connection, in order. */
  datatype Entry = Sent(request: Request) | Heard(packet: PacketData)

  /** What was done to file descriptors received from the compositor. */
  datatype PipeAction = WriteTo(fd: Fd, content: Text) | CloseFd(fd: Fd)

  datatype State = State(data: Data, nextObjectId: u32, trace: seq<Entry>, pipes: seq<PipeAction>)

  /** After `get_registry`, before the event loop. */
  const INIT := State(Data(Some(REGISTRY), None, None, None, None, None, None), 3, [Sent(GetRegistry(REGISTRY))], [])

  function Send(s: State, r: Request): State {
    s.(trace := s.trace + [Sent(r)])
  }

  // ----- what the events do -----

  function ObtainDataDeviceIfReady(s: State): State {
    if s.data.clipboardManagerId.None? || s.data.seatId.None? then s
    else
      var (id, counter) := NextId(s.nextObjectId);
      Send(s, GetDataDevice(s.data.clipboardManagerId.value, id, s.data.seatId.value))
        .(nextObjectId := counter, data := s.data.(clipboardDeviceId := Some(id)))
  }

  /** A `global` event that announces the seat or the clipboard manager. */
  function BindGlobal(s: State, registry: Id, name: u32, interfaceName: Text, version: u32): State {
    if interfaceName == WlSeat() && s.data.seatId.None? then
      var (id, counter) := NextId(s.nextObjectId);
      ObtainDataDeviceIfReady(Send(s, Bind(registry, name, interfaceName, version, id))
                                .(nextObjectId := counter, data := s.data.(seatId := Some(id))))
    else if interfaceName == DataControlManager() && s.data.clipboardManagerId.None? then
      var (id, counter) := NextId(s.nextObjectId);
      ObtainDataDeviceIfReady(Send(s, Bind(registry, name, interfaceName, version, id))
                                .(nextObjectId := counter, data := s.data.(clipboardManagerId := Some(id))))
    else s
  }

  function DecodeArgs(order: ByteOrder, event: Procedure, p: PacketData): Result<seq<WireValue>, Error> {
    Decode(order, ReadsOf(event.args), p.payload, p.fds)
  }

  /** An event that is decoded, and then at most logged. */
  function OnlyDecoded(order: ByteOrder, s: State, event: Procedure, p: PacketData): Option<State> {
    if DecodeArgs(order, event, p).Ok? then Some(s) else None
  }

  predicate GlobalArgs(vs: seq<WireValue>) {
    |vs| == 3 && vs[0].UintV? && vs[1].StrV? && vs[2].UintV?
  }

  predicate SendArgs(vs: seq<WireValue>) {
    |vs| == 2 && vs[0].StrV? && vs[1].FdV?
  }

  /** What is done with the descriptor of a `send` event. */
  function Serve(s: State, mimeType: Text, fd: Fd): State {
    var written := if mimeType in PlainTextMimeTypes() && s.data.clipboardData.Some?
                   then [WriteTo(fd, s.data.clipboardData.value)] else [];
    s.(pipes := s.pipes + written + [CloseFd(fd)])
  }

  function OnRegistry(order: ByteOrder, s: State, p: PacketData): Option<State> {
    if p.opcode != GLOBAL_OPCODE then Some(s)
    else
      var args := DecodeArgs(order, REGISTRY_GLOBAL, p);
      if args.Ok? && GlobalArgs(args.value) then
        var vs := args.value;
        Some(BindGlobal(s, p.objectId, vs[0].uint, vs[1].text, vs[2].uint))
      else None
  }

  function OnSource(order: ByteOrder, s: State, p: PacketData): Option<State> {
    if p.opcode == SEND_OPCODE then
      var args := DecodeArgs(order, SOURCE_SEND, p);
      if args.Ok? && SendArgs(args.value) then Some(Serve(s, args.value[0].text, args.value[1].fd)) else None
    else if p.opcode == CANCELLED_OPCODE then
      Some(s.(data := s.data.(clipboardData := None, clipboardSourceId := None)))
    else Some(s)
  }

  function OnSeat(order: ByteOrder, s: State, p: PacketData): Option<State> {
    if p.opcode == CAPABILITIES_OPCODE then OnlyDecoded(order, s, SEAT_CAPABILITIES, p)
    else if p.opcode == NAME_OPCODE then OnlyDecoded(order, s, SEAT_NAME, p)
    else Some(s)
  }

  function OnDevice(order: ByteOrder, s: State, p: PacketData): Option<State> {
    if p.opcode == DATA_OFFER_OPCODE then
      var args := DecodeArgs(order, DEVICE_DATA_OFFER, p);
      if args.Ok? && |args.value| == 1 && args.value[0].NewIdV? then
        Some(s.(data := s.data.(incomingOfferId := Some(args.value[0].newId))))
      else None
    else if p.opcode == SELECTION_OPCODE then OnlyDecoded(order, s, DEVICE_SELECTION, p)
    else if p.opcode == FINISHED_OPCODE then OnlyDecoded(order, s, DEVICE_FINISHED, p)
    else if p.opcode == PRIMARY_SELECTION_OPCODE then OnlyDecoded(order, s, DEVICE_PRIMARY_SELECTION, p)
    else Some(s)
  }

  function OnPacket(order: ByteOrder, s: State, p: PacketData): Option<State> {
    var id := Some(p.objectId);
    if p.objectId == DISPLAY then
      if p.opcode == ERROR_OPCODE then OnlyDecoded(order, s, DISPLAY_ERROR, p) else Some(s)
    else if id == s.data.registryId then OnRegistry(order, s, p)
    else if id == s.data.clipboardSourceId then OnSource(order, s, p)
    else if id == s.data.seatId then OnSeat(order, s, p)
    else if id == s.data.clipboardDeviceId then OnDevice(order, s, p)
    else if id == s.data.clipboardManagerId then Some(s)
    else if id == s.data.incomingOfferId then
      if p.opcode == OFFER_OPCODE then OnlyDecoded(order, s, OFFER_OFFER, p) else Some(s)
    else Some(s)
  }

  /** `wayland_dispatch`. Nothing comes out of a packet whose arguments do not decode: the program panics. */
  function Dispatched(order: ByteOrder, s: State, p: PacketData): Option<State> {
    OnPacket(order, s.(trace := s.trace + [Heard(p)]), p)
  }

  function Offers(source: Id, mimeTypes: seq<Text>): (es: seq<Entry>)
    ensures |es| == |mimeTypes|
  {
    seq(|mimeTypes|, i requires 0 <= i < |mimeTypes| => Sent(Offer(source, mimeTypes[i])))
  }

  /** The requests that publish a new source. */
  function Publication(manager: Id, device: Id, source: Id): seq<Entry> {
    [Sent(CreateDataSource(manager, source))] + Offers(source, PlainTextMimeTypes())
      + [Sent(SetSelection(device, source))]
  }

  /** A copy in this state creates a new source. */
  predicate Publishes(s: State) {
    s.data.clipboardSourceId.None? && s.data.clipboardManagerId.Some? && s.data.clipboardDeviceId.Some?
  }

  /** `copy_dispatch` */
  function Copied(s: State, content: Text): State {
    var stored := s.(data := s.data.(clipboardData := Some(content)));
    if !Publishes(s) then stored
    else
      var (id, counter) := NextId(s.nextObjectId);
      stored.(nextObjectId := counter,
        data := stored.data.(clipboardSourceId := Some(id)),
        trace := s.trace + Publication(s.data.clipboardManagerId.value, s.data.clipboardDeviceId.value, id))
  }

  /** `clear_dispatch` */
  function Cleared(s: State): State {
    var dropped := s.(data := s.data.(clipboardData := None));
    if s.data.clipboardSourceId.None? then dropped
    else Send(dropped, DestroySource(s.data.clipboardSourceId.value)).(data := dropped.data.(clipboardSourceId := None))
  }

  // ----- the constant table and its search -----

  predicate LexLess(a: Text, b: Text) {
    if |b| == 0 then false
    else if |a| == 0 then true
    else a[0] < b[0] || (a[0] == b[0] && LexLess(a[1..], b[1..]))
  }

  lemma {:induction false} LexTrichotomy(a: Text, b: Text)
    ensures LexLess(a, b) || LexLess(b, a) || a == b
    ensures !LexLess(a, a)
    decreases |a|
  {
    if |a| > 0 {
      LexTrichotomy(a[1..], if |b| > 0 then b[1..] else []);
      if |b| > 0 && a[0] == b[0] && a[1..] == b[1..] {
        assert a == [a[0]] + a[1..] == b;
      }
    }
  }

  lemma {:induction false} LexTransitive(a: Text, b: Text, c: Text)
    requires LexLess(a, b) && LexLess(b, c)
    ensures LexLess(a, c)
    decreases |a|
  {
    if |a| > 0 && a[0] == b[0] == c[0] {
      LexTransitive(a[1..], b[1..], c[1..]);
    }
  }

  predicate Sorted(table: seq<Text>) {
    forall i, j :: 0 <= i < j < |table| ==> LexLess(table[i], table[j])
  }

  /** `binary_search(..).is_ok()` on a sorted table. */
  method BinarySearchIsOk(table: seq<Text>, key: Text) returns (found: bool)
    requires Sorted(table)
    ensures found <==> key in table
  {
    var low, high := 0, |table|;
    while low < high
      invariant 0 <= low <= high <= |table|
      invariant forall i :: 0 <= i < low ==> table[i] != key
      invariant forall i :: high <= i < |table| ==> table[i] != key
    {
      var mid := (low + high) / 2;
      if table[mid] == key {
        return true;
      }
      SearchHalves(table, key, mid);
      if LexLess(table[mid], key) {
        low := mid + 1;
      } else {
        high := mid;
      }
    }
    return false;
  }

  lemma LexAsymmetric(a: Text, b: Text)
    requires LexLess(a, b)
    ensures !LexLess(b, a)
  {
    if LexLess(b, a) {
      LexTransitive(a, b, a);
      LexTrichotomy(a, a);
    }
  }

  lemma SearchHalves(table: seq<Text>, key: Text, mid: nat)
    requires Sorted(table) && mid < |table| && table[mid] != key
    ensures LexLess(table[mid], key) ==> forall i :: 0 <= i <= mid ==> table[i] != key
    ensures !LexLess(table[mid], key) ==> forall i :: mid <= i < |table| ==> table[i] != key
  {
    hide LexLess;
    LexTrichotomy(table[mid], key);
    if LexLess(table[mid], key) {
      LexAsymmetric(table[mid], key);
    } else {
      LexAsymmetric(key, table[mid]);
    }
  }

  /** The table is sorted, as the search needs. */
  lemma MimeTypesSorted()
    ensures Sorted(PlainTextMimeTypes())
  {
    var t := PlainTextMimeTypes();
    assert LexLess(t[0], t[1]);
    assert LexLess(t[1], t[2]);
    assert LexLess(t[2], t[3]);
    PrefixIsLess(t[3], t[4], 10);
    SortedByNeighbours(t);
  }

  /** The types of plain text, each in the spelling that clients use. */
  lemma MimeTypesAre(mimeType: Text)
    ensures mimeType in PlainTextMimeTypes()
       <==> mimeType in {Ascii("text/plain;charset=utf-8"), Ascii("text/plain"), Ascii("UTF8_STRING"), Ascii("STRING"),
                         Ascii("TEXT")}
  {
  }

  /** A proper prefix is less. */
  lemma {:induction false} PrefixIsLess(a: Text, b: Text, n: nat)
    requires |a| == n < |b| && a == b[..n]
    ensures LexLess(a, b)
    decreases n
  {
    if n > 0 {
      assert a[1..] == b[1..][..n - 1];
      PrefixIsLess(a[1..], b[1..], n - 1);
    }
  }

  lemma SortedByNeighbours(t: seq<Text>)
    requires forall i :: 0 <= i < |t| - 1 ==> LexLess(t[i], t[i + 1])
    ensures Sorted(t)
  {
    hide LexLess;
    forall i, j | 0 <= i < j < |t|
      ensures LexLess(t[i], t[j])
    {
      NeighboursReach(t, i, j);
    }
  }

  lemma {:induction false} NeighboursReach(t: seq<Text>, i: nat, j: nat)
    requires forall k :: 0 <= k < |t| - 1 ==> LexLess(t[k], t[k + 1])
    requires i < j < |t|
    ensures LexLess(t[i], t[j])
    decreases j
  {
    hide LexLess;
    if i < j - 1 {
      NeighboursReach(t, i, j - 1);
      LexTransitive(t[i], t[j - 1], t[j]);
    }
    assert LexLess(t[j - 1], t[j - 1 + 1]);
  }
}
