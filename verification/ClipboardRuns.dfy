/** Every run of the clipboard owner: any interleaving of copies, clears and compositor packets,
    judged by an independent observer of the ext-data-control-v1 rules. */
module ClipboardRuns {
  import opened Numbers
  import opened Outcomes
  import opened Packets
  import opened Codec
  import opened Generator
  import opened FormsAgree
  import opened Framing
  import opened Clipboard

  // ----- runs -----

  datatype Input = Copy(content: Text) | Clear | Incoming(packet: PacketData)

  function Respond(order: ByteOrder, s: State, input: Input): Option<State> {
    match input
    case Copy(content) => Some(Copied(s, content))
    case Clear => Some(Cleared(s))
    case Incoming(p) => Clipboard.Dispatched(order, s, p)
  }

  /** The state after the inputs; none if the program panicked on a packet that does not decode. */
  function Run(order: ByteOrder, inputs: seq<Input>): Option<State> {
    if |inputs| == 0 then Some(INIT)
    else
      match Run(order, inputs[..|inputs| - 1])
      case None => None
      case Some(s) => Respond(order, s, inputs[|inputs| - 1])
  }

  lemma RunOne(order: ByteOrder, inputs: seq<Input>, input: Input)
    ensures Run(order, inputs + [input])
         == if Run(order, inputs).None? then None else Respond(order, Run(order, inputs).value, input)
  {
    hide Respond;
    assert (inputs + [input])[..|inputs|] == inputs;
  }

  // ----- what a packet can do -----

  /** At most a new incoming offer was noted. */
  predicate Quiet(s: State, s': State) {
    s' == s.(data := s.data.(incomingOfferId := s'.data.incomingOfferId))
  }

  function SourceLost(s: State): State {
    s.(data := s.data.(clipboardData := None, clipboardSourceId := None))
  }

  /** The packet reaches the source arm of the dispatcher. */
  predicate ForSource(s: State, p: PacketData) {
    p.objectId != DISPLAY && s.data.registryId != Some(p.objectId) && s.data.clipboardSourceId == Some(p.objectId)
  }

  /** The packet announces a global with these arguments. */
  predicate Announces(order: ByteOrder, p: PacketData, name: u32, interfaceName: Text, version: u32) {
    && p.opcode == GLOBAL_OPCODE
    && DecodeArgs(order, REGISTRY_GLOBAL, p) == Ok([UintV(name), StrV(interfaceName), UintV(version)])
  }

  /** The packet asks for content of this type, to be written to this descriptor. */
  predicate Asks(order: ByteOrder, p: PacketData, mimeType: Text, fd: Fd) {
    && p.opcode == SEND_OPCODE
    && DecodeArgs(order, SOURCE_SEND, p) == Ok([StrV(mimeType), FdV(fd)])
  }

  /** A packet binds a global, serves or loses the source, or is quiet. */
  lemma PacketCases(order: ByteOrder, s: State, p: PacketData)
    returns (name: u32, interfaceName: Text, version: u32, mimeType: Text, fd: Fd)
    requires OnPacket(order, s, p).Some?
    ensures var s' := OnPacket(order, s, p).value;
            || (Quiet(s, s') && !(ForSource(s, p) && p.opcode in {SEND_OPCODE, CANCELLED_OPCODE}))
            || (&& s.data.registryId == Some(p.objectId) && !ForSource(s, p)
                && Announces(order, p, name, interfaceName, version)
                && s' == BindGlobal(s, p.objectId, name, interfaceName, version))
            || (ForSource(s, p) && Asks(order, p, mimeType, fd) && s' == Serve(s, mimeType, fd))
            || (ForSource(s, p) && p.opcode == CANCELLED_OPCODE && s' == SourceLost(s))
  {
    hide Decode, BindGlobal, Serve;
    name, interfaceName, version, mimeType, fd := 0, [], 0, [], 0;
    if s.data.registryId == Some(p.objectId) {
      var args := DecodeArgs(order, REGISTRY_GLOBAL, p);
      if args.Ok? && GlobalArgs(args.value) {
        name, interfaceName, version := args.value[0].uint, args.value[1].text, args.value[2].uint;
        assert args.value == [UintV(name), StrV(interfaceName), UintV(version)];
      }
    } else if s.data.clipboardSourceId == Some(p.objectId) {
      var args := DecodeArgs(order, SOURCE_SEND, p);
      if args.Ok? && SendArgs(args.value) {
        mimeType, fd := args.value[0].text, args.value[1].fd;
        assert args.value == [StrV(mimeType), FdV(fd)];
      }
    }
  }

  /** The event whose arguments the dispatcher decodes for a packet, if any. */
  function ExpectedEvent(d: Data, p: PacketData): Option<Procedure> {
    var id := Some(p.objectId);
    if p.objectId == DISPLAY then
      if p.opcode == ERROR_OPCODE then Some(DISPLAY_ERROR) else None
    else if id == d.registryId then
      if p.opcode == GLOBAL_OPCODE then Some(REGISTRY_GLOBAL) else None
    else if id == d.clipboardSourceId then
      if p.opcode == SEND_OPCODE then Some(SOURCE_SEND) else None
    else if id == d.seatId then
      if p.opcode == CAPABILITIES_OPCODE then Some(SEAT_CAPABILITIES)
      else if p.opcode == NAME_OPCODE then Some(SEAT_NAME)
      else None
    else if id == d.clipboardDeviceId then
      match p.opcode {
        case 0 => Some(DEVICE_DATA_OFFER)
        case 1 => Some(DEVICE_SELECTION)
        case 2 => Some(DEVICE_FINISHED)
        case 3 => Some(DEVICE_PRIMARY_SELECTION)
        case _ => None
      }
    else if id != d.clipboardManagerId && id == d.incomingOfferId && p.opcode == OFFER_OPCODE then Some(OFFER_OFFER)
    else None
  }

  /** What decodes has the argument types of the event. */
  lemma DecodedAreTyped(order: ByteOrder, event: Procedure, p: PacketData)
    requires DecodeArgs(order, event, p).Ok?
    ensures TypedArgs(event.args, DecodeArgs(order, event, p).value)
  {
    hide Decode, EncodeAll, AllEncodable, MaskAll, Agrees;
    var vs := DecodeArgs(order, event, p).value;
    DecodeIff(order, ReadsOf(event.args), p.payload, p.fds, vs);
    TypedForReads(event.args, vs);
  }

  /** The program panics on a packet exactly if it is one whose arguments it expects and they do not decode. */
  lemma PanicsIff(order: ByteOrder, s: State, p: PacketData)
    ensures OnPacket(order, s, p).None?
       <==> ExpectedEvent(s.data, p).Some? && DecodeArgs(order, ExpectedEvent(s.data, p).value, p).Err?
  {
    hide DecodeArgs, BindGlobal, Serve;
    var event := ExpectedEvent(s.data, p);
    if event.Some? && DecodeArgs(order, event.value, p).Ok? {
      DecodedAreTyped(order, event.value, p);
    }
  }

  function Hearing(s: State, p: PacketData): State {
    s.(trace := s.trace + [Heard(p)])
  }

  // ----- object IDs -----

  function NewIdOf(r: Clipboard.Request): Option<Id> {
    match r
    case GetRegistry(id) => Some(id)
    case Bind(_, _, _, _, id) => Some(id)
    case CreateDataSource(_, id) => Some(id)
    case GetDataDevice(_, id, _) => Some(id)
    case _ => None
  }

  function NewIdsIn(e: Entry): seq<Id> {
    if e.Sent? && NewIdOf(e.request).Some? then [NewIdOf(e.request).value] else []
  }

  /** The object IDs introduced by a trace, in order. */
  function NewIds(trace: seq<Entry>): seq<Id> {
    if |trace| == 0 then [] else NewIds(trace[..|trace| - 1]) + NewIdsIn(trace[|trace| - 1])
  }

  /** The counter wraps around after this many IDs. */
  const MAX_IDS := 0xFFFF_FFFD

  lemma NewIdsOne(trace: seq<Entry>, e: Entry)
    ensures NewIds(trace + [e]) == NewIds(trace) + NewIdsIn(e)
  {
    assert (trace + [e])[..|trace|] == trace;
  }

  lemma {:induction false} NewIdsConcat(a: seq<Entry>, b: seq<Entry>)
    ensures NewIds(a + b) == NewIds(a) + NewIds(b)
    decreases |b|
  {
    hide NewIdsIn;
    if |b| == 0 {
      assert a + b == a;
    } else {
      var front := b[..|b| - 1];
      assert (a + b)[..|a + b| - 1] == a + front;
      NewIdsConcat(a, front);
    }
  }

  lemma {:induction false} NewIdsNone(es: seq<Entry>)
    requires forall i :: 0 <= i < |es| ==> NewIdsIn(es[i]) == []
    ensures NewIds(es) == []
    decreases |es|
  {
    if |es| > 0 {
      NewIdsNone(es[..|es| - 1]);
    }
  }

  lemma NoIdsInNothing()
    ensures NewIds([]) == []
  {
  }

  lemma NewIdsOfPublication(manager: Id, device: Id, source: Id)
    ensures NewIds(Publication(manager, device, source)) == [source]
  {
    hide PlainTextMimeTypes, NewIds;
    var create, offers, selection := [Sent(CreateDataSource(manager, source))], Offers(source, PlainTextMimeTypes()),
      [Sent(SetSelection(device, source))];
    NewIdsConcat(create + offers, selection);
    NewIdsConcat(create, offers);
    NewIdsNone(offers);
    NewIdsOne([], create[0]);
    NewIdsOne([], selection[0]);
    assert [] + create == create && [] + selection == selection;
    NoIdsInNothing();
  }

  /** IDs come out consecutively, starting with the registry's, and the counter is one further. */
  predicate IdsInOrder(s: State) {
    && s.nextObjectId == 2 + |NewIds(s.trace)|
    && forall i :: 0 <= i < |NewIds(s.trace)| ==> NewIds(s.trace)[i] == 2 + i
  }

  lemma DrawOne(s: State, s': State, r: Clipboard.Request)
    requires IdsInOrder(s) && |NewIds(s'.trace)| <= MAX_IDS
    requires NewIdOf(r) == Some(NextId(s.nextObjectId).0)
    requires s'.nextObjectId == NextId(s.nextObjectId).1 && s'.trace == s.trace + [Sent(r)]
    ensures IdsInOrder(s')
    ensures NextId(s.nextObjectId).0 == s.nextObjectId && s'.nextObjectId == s.nextObjectId + 1
  {
    NewIdsOne(s.trace, Sent(r));
  }

  // ----- which objects there are -----

  /** What holds of the program's own fields in every state. */
  predicate Shape(s: State) {
    && s.data.registryId == Some(REGISTRY)
    && (s.data.clipboardDeviceId.Some? <==> s.data.seatId.Some? && s.data.clipboardManagerId.Some?)
    && (s.data.clipboardSourceId.Some? ==> s.data.clipboardDeviceId.Some? && s.data.clipboardData.Some?)
  }

  lemma ShapeKept(order: ByteOrder, s: State, input: Input)
    requires Shape(s) && Respond(order, s, input).Some?
    ensures Shape(Respond(order, s, input).value)
  {
    hide NextId, PlainTextMimeTypes, Publication, WlSeat, DataControlManager, OnPacket;
    if input.Incoming? {
      var _, _, _, _, _ := PacketCases(order, Hearing(s, input.packet), input.packet);
    }
  }

  // ----- requests that are made once -----

  datatype Purpose = ForSeat | ForManager | ForOtherGlobal | ForDevice | ForNothingElse

  function PurposeOf(r: Clipboard.Request): Purpose {
    match r
    case Bind(_, _, interfaceName, _, _) =>
      if interfaceName == WlSeat() then ForSeat
      else if interfaceName == DataControlManager() then ForManager
      else ForOtherGlobal
    case GetDataDevice(_, _, _) => ForDevice
    case _ => ForNothingElse
  }

  function MadeIn(e: Entry, purpose: Purpose): seq<Clipboard.Request> {
    if e.Sent? && PurposeOf(e.request) == purpose then [e.request] else []
  }

  /** The requests made for a purpose, in order. */
  function Made(trace: seq<Entry>, purpose: Purpose): seq<Clipboard.Request> {
    if |trace| == 0 then [] else Made(trace[..|trace| - 1], purpose) + MadeIn(trace[|trace| - 1], purpose)
  }

  lemma MadeOne(trace: seq<Entry>, e: Entry, purpose: Purpose)
    ensures Made(trace + [e], purpose) == Made(trace, purpose) + MadeIn(e, purpose)
  {
    hide MadeIn;
    assert (trace + [e])[..|trace|] == trace;
  }

  lemma {:induction false} MadeNothing(trace: seq<Entry>, es: seq<Entry>, purpose: Purpose)
    requires forall i :: 0 <= i < |es| ==> MadeIn(es[i], purpose) == []
    ensures Made(trace + es, purpose) == Made(trace, purpose)
    decreases |es|
  {
    hide MadeIn, Made;
    if |es| == 0 {
      assert trace + es == trace;
    } else {
      var front, last := es[..|es| - 1], es[|es| - 1];
      MadeNothing(trace, front, purpose);
      MadeOne(trace + front, last, purpose);
      assert trace + es == trace + front + [last];
    }
  }

  /** The only request made is the binding of this object to this interface, if it is known. */
  predicate BoundOnce(made: seq<Clipboard.Request>, id: Option<Id>, interfaceName: Text) {
    match id
    case None => made == []
    case Some(x) =>
      && |made| == 1 && made[0].Bind? && made[0].registry == REGISTRY
      && made[0].interfaceName == interfaceName && made[0].newId == x
  }

  /** The requests for globals and for the device, over the whole trace. */
  predicate OnceEach(s: State) {
    && BoundOnce(Made(s.trace, ForSeat), s.data.seatId, WlSeat())
    && BoundOnce(Made(s.trace, ForManager), s.data.clipboardManagerId, DataControlManager())
    && Made(s.trace, ForOtherGlobal) == []
    && (s.data.clipboardDeviceId.None? ==> Made(s.trace, ForDevice) == [])
    && (s.data.clipboardDeviceId.Some? ==>
          && s.data.clipboardManagerId.Some? && s.data.seatId.Some?
          && Made(s.trace, ForDevice) == [GetDataDevice(s.data.clipboardManagerId.value,
                                                        s.data.clipboardDeviceId.value, s.data.seatId.value)])
  }

  lemma OnceKept(s: State, s': State, es: seq<Entry>)
    requires OnceEach(s) && s'.trace == s.trace + es
    requires forall i :: 0 <= i < |es| ==> es[i].Sent? ==> PurposeOf(es[i].request) == ForNothingElse
    requires s'.data.seatId == s.data.seatId && s'.data.clipboardManagerId == s.data.clipboardManagerId
    requires s'.data.clipboardDeviceId == s.data.clipboardDeviceId
    ensures OnceEach(s')
  {
    hide WlSeat, DataControlManager, PurposeOf, Made;
    MadeNothing(s.trace, es, ForSeat);
    MadeNothing(s.trace, es, ForManager);
    MadeNothing(s.trace, es, ForOtherGlobal);
    MadeNothing(s.trace, es, ForDevice);
  }

  lemma MadeByOne(trace: seq<Entry>, e: Entry)
    ensures forall purpose :: Made(trace + [e], purpose) == Made(trace, purpose) + MadeIn(e, purpose)
  {
    hide MadeIn, Made;
    forall purpose: Purpose
      ensures Made(trace + [e], purpose) == Made(trace, purpose) + MadeIn(e, purpose)
    {
      MadeOne(trace, e, purpose);
    }
  }

  lemma ObtainOnce(s: State)
    requires OnceEach(s) && s.data.clipboardDeviceId.None?
    ensures OnceEach(ObtainDataDeviceIfReady(s))
  {
    hide Made, NextId, WlSeat, DataControlManager;
    var s' := ObtainDataDeviceIfReady(s);
    if s.data.seatId.Some? && s.data.clipboardManagerId.Some? {
      var r := GetDataDevice(s.data.clipboardManagerId.value, NextId(s.nextObjectId).0, s.data.seatId.value);
      assert s'.trace == s.trace + [Sent(r)];
      MadeByOne(s.trace, Sent(r));
    }
  }

  lemma BindGlobalOnce(s: State, name: u32, interfaceName: Text, version: u32)
    requires OnceEach(s) && Shape(s)
    ensures OnceEach(BindGlobal(s, REGISTRY, name, interfaceName, version))
  {
    hide Made, NextId, WlSeat, DataControlManager, ObtainDataDeviceIfReady;
    SeatIsNotManager();
    var (id, counter) := NextId(s.nextObjectId);
    var r := Clipboard.Bind(REGISTRY, name, interfaceName, version, id);
    var sent := Send(s, r).(nextObjectId := counter);
    MadeByOne(s.trace, Sent(r));
    if interfaceName == WlSeat() && s.data.seatId.None? {
      ObtainOnce(sent.(data := s.data.(seatId := Some(id))));
    } else if interfaceName == DataControlManager() && s.data.clipboardManagerId.None? {
      ObtainOnce(sent.(data := s.data.(clipboardManagerId := Some(id))));
    }
  }

  lemma InputOnce(order: ByteOrder, s: State, input: Input)
    requires OnceEach(s) && Shape(s) && Respond(order, s, input).Some?
    ensures OnceEach(Respond(order, s, input).value)
  {
    hide OnceEach, NextId, PlainTextMimeTypes, WlSeat, DataControlManager, OnPacket, BindGlobal;
    var s' := Respond(order, s, input).value;
    match input {
      case Copy(_) => OnceKept(s, s', s'.trace[|s.trace|..]);
      case Clear => OnceKept(s, s', s'.trace[|s.trace|..]);
      case Incoming(p) =>
        var h := Hearing(s, p);
        OnceKept(s, h, [Heard(p)]);
        var name, interfaceName, version, _, _ := PacketCases(order, h, p);
        if s' == BindGlobal(h, p.objectId, name, interfaceName, version) && h.data.registryId == Some(p.objectId) {
          BindGlobalOnce(h, name, interfaceName, version);
        } else {
          OnceKept(h, s', []);
        }
    }
  }

  /** In every run, however long: seat and manager are each bound at most once, no other global is
      bound, and at most one data device is requested, namely from that manager for that seat. */
  lemma {:induction false} EveryRequestOnce(order: ByteOrder, inputs: seq<Input>)
    requires Run(order, inputs).Some?
    ensures OnceEach(Run(order, inputs).value) && Shape(Run(order, inputs).value)
    decreases |inputs|
  {
    hide Respond, Shape, OnceEach;
    if |inputs| == 0 {
      InitialOnce();
    } else {
      var before := Run(order, inputs[..|inputs| - 1]).value;
      EveryRequestOnce(order, inputs[..|inputs| - 1]);
      ShapeKept(order, before, inputs[|inputs| - 1]);
      InputOnce(order, before, inputs[|inputs| - 1]);
    }
  }

  lemma InitialOnce()
    ensures OnceEach(INIT) && Shape(INIT)
  {
    MadeByOne([], Sent(GetRegistry(REGISTRY)));
    assert [] + [Sent(GetRegistry(REGISTRY))] == INIT.trace;
  }

  // ----- IDs in order -----

  lemma BindGlobalDraws(s: State, registry: Id, name: u32, interfaceName: Text, version: u32)
    requires IdsInOrder(s) && Shape(s)
    requires |NewIds(BindGlobal(s, registry, name, interfaceName, version).trace)| <= MAX_IDS
    ensures IdsInOrder(BindGlobal(s, registry, name, interfaceName, version))
  {
    hide WlSeat, DataControlManager, NextId;
    var s' := BindGlobal(s, registry, name, interfaceName, version);
    if s' != s {
      var id := NextId(s.nextObjectId).0;
      var r := Clipboard.Bind(registry, name, interfaceName, version, id);
      var s1 := Send(s, r).(nextObjectId := NextId(s.nextObjectId).1);
      NewIdsOne(s.trace, Sent(r));
      if s'.trace == s1.trace {
        DrawOne(s, s', r);
      } else {
        var last := s'.trace[|s'.trace| - 1];
        assert s'.trace == s1.trace + [last];
        NewIdsOne(s1.trace, last);
        DrawOne(s, s1, r);
        DrawOne(s1, s', last.request);
      }
    }
  }

  lemma HeardDrawsNothing(s: State, p: PacketData)
    requires IdsInOrder(s)
    ensures IdsInOrder(Hearing(s, p))
  {
    NewIdsOne(s.trace, Heard(p));
  }

  lemma IdsKept(order: ByteOrder, s: State, input: Input)
    requires IdsInOrder(s) && Shape(s) && Respond(order, s, input).Some?
    requires |NewIds(Respond(order, s, input).value.trace)| <= MAX_IDS
    ensures IdsInOrder(Respond(order, s, input).value)
  {
    hide OnPacket, Copied, NewIds;
    var s' := Respond(order, s, input).value;
    match input {
      case Copy(content) =>
        CopyKeepsIds(s, content);
      case Clear =>
        if s'.trace != s.trace {
          NewIdsOne(s.trace, s'.trace[|s.trace|]);
        }
      case Incoming(p) =>
        PacketKeepsIds(order, s, p);
    }
  }

  lemma PacketKeepsIds(order: ByteOrder, s: State, p: PacketData)
    requires IdsInOrder(s) && Shape(s) && OnPacket(order, Hearing(s, p), p).Some?
    requires |NewIds(OnPacket(order, Hearing(s, p), p).value.trace)| <= MAX_IDS
    ensures IdsInOrder(OnPacket(order, Hearing(s, p), p).value)
  {
    hide OnPacket, BindGlobal, NewIds;
    HeardDrawsNothing(s, p);
    var h := Hearing(s, p);
    var name, interfaceName, version, _, _ := PacketCases(order, h, p);
    if OnPacket(order, h, p).value == BindGlobal(h, p.objectId, name, interfaceName, version) {
      BindGlobalDraws(h, p.objectId, name, interfaceName, version);
    }
  }

  lemma CopyKeepsIds(s: State, content: Text)
    requires IdsInOrder(s) && |NewIds(Copied(s, content).trace)| <= MAX_IDS
    ensures IdsInOrder(Copied(s, content))
  {
    hide Publication;
    if Publishes(s) {
      var m, d, id := s.data.clipboardManagerId.value, s.data.clipboardDeviceId.value, NextId(s.nextObjectId).0;
      NewIdsConcat(s.trace, Publication(m, d, id));
      NewIdsOfPublication(m, d, id);
    }
  }

  lemma NewIdsGrow(order: ByteOrder, s: State, input: Input)
    requires Respond(order, s, input).Some?
    ensures |s.trace| <= |Respond(order, s, input).value.trace|
    ensures Respond(order, s, input).value.trace[..|s.trace|] == s.trace
    ensures |NewIds(s.trace)| <= |NewIds(Respond(order, s, input).value.trace)|
  {
    hide PlainTextMimeTypes, Publication, WlSeat, DataControlManager, NextId, NewIds, OnPacket;
    if input.Incoming? {
      var _, _, _, _, _ := PacketCases(order, Hearing(s, input.packet), input.packet);
    }
    var t := Respond(order, s, input).value.trace;
    NewIdsConcat(s.trace, t[|s.trace|..]);
    assert t == s.trace + t[|s.trace|..];
  }

  /** In every state of every run: the data device exists exactly when seat and manager both do, a
      live source implies a device and stored content, each request for one of them was made once, and
      the IDs sent to the compositor are 2, 3, 4
      and so on without gap or repetition, all below the counter. */
  lemma {:induction false} EveryState(order: ByteOrder, inputs: seq<Input>)
    requires Run(order, inputs).Some? && |NewIds(Run(order, inputs).value.trace)| <= MAX_IDS
    ensures Shape(Run(order, inputs).value) && IdsInOrder(Run(order, inputs).value)
    ensures OnceEach(Run(order, inputs).value)
    decreases |inputs|
  {
    hide Respond, Shape, IdsInOrder, NewIds, OnceEach;
    EveryRequestOnce(order, inputs);
    if |inputs| == 0 {
      InitialIds();
    } else {
      var before := Run(order, inputs[..|inputs| - 1]).value;
      var input := inputs[|inputs| - 1];
      NewIdsGrow(order, before, input);
      EveryState(order, inputs[..|inputs| - 1]);
      ShapeKept(order, before, input);
      IdsKept(order, before, input);
    }
  }

  lemma InitialIds()
    ensures Shape(INIT) && IdsInOrder(INIT)
  {
    NewIdsOne([], Sent(GetRegistry(REGISTRY)));
    assert [] + [Sent(GetRegistry(REGISTRY))] == INIT.trace;
  }

  // ----- what is bound is what was announced -----

  /** A binding at this place of the trace answers the packet heard just before: same registry, name,
      interface and version. */
  predicate BindAnswers(order: ByteOrder, trace: seq<Entry>, k: nat)
    requires k < |trace|
  {
    trace[k].Sent? && trace[k].request.Bind? ==>
      var r := trace[k].request;
      && k > 0 && trace[k - 1].Heard? && trace[k - 1].packet.objectId == r.registry
      && Announces(order, trace[k - 1].packet, r.name, r.interfaceName, r.version)
  }

  predicate BindsAnswer(order: ByteOrder, trace: seq<Entry>) {
    forall k :: 0 <= k < |trace| ==> BindAnswers(order, trace, k)
  }

  lemma AnswersKept(order: ByteOrder, trace: seq<Entry>, es: seq<Entry>)
    requires BindsAnswer(order, trace)
    requires forall i :: 0 <= i < |es| ==> es[i].Sent? ==> !es[i].request.Bind?
    ensures BindsAnswer(order, trace + es)
  {
    hide Announces;
    forall k | 0 <= k < |trace + es|
      ensures BindAnswers(order, trace + es, k)
    {
      assert k < |trace| ==> BindAnswers(order, trace, k);
    }
  }

  lemma AnswerSent(order: ByteOrder, trace: seq<Entry>, p: PacketData, r: Clipboard.Request)
    requires BindsAnswer(order, trace) && r.Bind? && p.objectId == r.registry
    requires Announces(order, p, r.name, r.interfaceName, r.version)
    ensures BindsAnswer(order, trace + [Heard(p)] + [Sent(r)])
  {
    hide Announces, BindsAnswer;
    AnswersKept(order, trace, [Heard(p)]);
    assert BindsAnswer(order, trace + [Heard(p)]);
    OneAnswer(order, trace + [Heard(p)], r);
  }

  lemma OneAnswer(order: ByteOrder, trace: seq<Entry>, r: Clipboard.Request)
    requires BindsAnswer(order, trace) && BindAnswers(order, trace + [Sent(r)], |trace|)
    ensures BindsAnswer(order, trace + [Sent(r)])
  {
    hide Announces;
    forall k | 0 <= k < |trace| + 1
      ensures BindAnswers(order, trace + [Sent(r)], k)
    {
      assert k < |trace| ==> BindAnswers(order, trace, k);
    }
  }

  lemma BindGlobalAnswers(order: ByteOrder, s: State, p: PacketData, name: u32, interfaceName: Text, version: u32)
    requires BindsAnswer(order, s.trace) && Announces(order, p, name, interfaceName, version)
    ensures BindsAnswer(order, BindGlobal(Hearing(s, p), p.objectId, name, interfaceName, version).trace)
  {
    hide Announces, BindsAnswer, NextId, WlSeat, DataControlManager;
    var h := Hearing(s, p);
    var s' := BindGlobal(h, p.objectId, name, interfaceName, version);
    AnswersKept(order, s.trace, [Heard(p)]);
    if s' != h {
      var r := Clipboard.Bind(p.objectId, name, interfaceName, version, NextId(h.nextObjectId).0);
      AnswerSent(order, s.trace, p, r);
      var answered := h.trace + [Sent(r)];
      AnswersKept(order, answered, s'.trace[|answered|..]);
      assert s'.trace == answered + s'.trace[|answered|..];
    }
  }

  /** In every run, every `bind` answers the announcement heard just before it and names exactly the
      global, interface and version announced there. */
  lemma {:induction false} EveryBindAnswers(order: ByteOrder, inputs: seq<Input>)
    requires Run(order, inputs).Some?
    ensures BindsAnswer(order, Run(order, inputs).value.trace)
    decreases |inputs|
  {
    hide BindsAnswer, OnPacket, Announces, BindGlobal, NextId;
    if |inputs| == 0 {
      InitialAnswers(order);
    } else {
      var s, s' := Run(order, inputs[..|inputs| - 1]).value, Run(order, inputs).value;
      EveryBindAnswers(order, inputs[..|inputs| - 1]);
      match inputs[|inputs| - 1] {
        case Copy(_) => OwnInputAnswers(order, s, s');
        case Clear => OwnInputAnswers(order, s, s');
        case Incoming(p) =>
          AnswersKept(order, s.trace, [Heard(p)]);
          var name, interfaceName, version, _, _ := PacketCases(order, Hearing(s, p), p);
          if Announces(order, p, name, interfaceName, version) {
            BindGlobalAnswers(order, s, p, name, interfaceName, version);
          }
      }
    }
  }

  lemma OwnInputAnswers(order: ByteOrder, s: State, s': State)
    requires BindsAnswer(order, s.trace)
    requires s' == Cleared(s) || exists content :: s' == Copied(s, content)
    ensures BindsAnswer(order, s'.trace)
  {
    hide BindsAnswer, NextId, PlainTextMimeTypes;
    AnswersKept(order, s.trace, s'.trace[|s.trace|..]);
    assert s'.trace == s.trace + s'.trace[|s.trace|..];
  }

  lemma InitialAnswers(order: ByteOrder)
    ensures BindsAnswer(order, INIT.trace)
  {
  }

  // ----- what is announced is bound -----

  /** The trace holds an announcement of this interface. */
  ghost predicate WasAnnounced(order: ByteOrder, trace: seq<Entry>, interfaceName: Text) {
    exists k, name, version ::
      && 0 <= k < |trace| && trace[k].Heard? && trace[k].packet.objectId == REGISTRY
      && Announces(order, trace[k].packet, name, interfaceName, version)
  }

  ghost predicate IsAnnouncement(order: ByteOrder, p: PacketData, interfaceName: Text) {
    p.objectId == REGISTRY && exists name, version :: Announces(order, p, name, interfaceName, version)
  }

  lemma AnnouncedByOne(order: ByteOrder, trace: seq<Entry>, e: Entry, interfaceName: Text)
    ensures WasAnnounced(order, trace + [e], interfaceName)
       <==> WasAnnounced(order, trace, interfaceName) || (e.Heard? && IsAnnouncement(order, e.packet, interfaceName))
  {
    hide Announces;
    var longer := trace + [e];
    assert longer[|trace|] == e && longer[..|trace|] == trace;
    if WasAnnounced(order, trace, interfaceName) {
      var k, name, version :|
        && 0 <= k < |trace| && trace[k].Heard? && trace[k].packet.objectId == REGISTRY
        && Announces(order, trace[k].packet, name, interfaceName, version);
      assert longer[k] == trace[k];
    }
    if e.Heard? && IsAnnouncement(order, e.packet, interfaceName) {
      var name, version :| Announces(order, e.packet, name, interfaceName, version);
      assert Announces(order, longer[|trace|].packet, name, interfaceName, version);
    }
    if WasAnnounced(order, longer, interfaceName) {
      var k, name, version :|
        && 0 <= k < |longer| && longer[k].Heard? && longer[k].packet.objectId == REGISTRY
        && Announces(order, longer[k].packet, name, interfaceName, version);
      assert k < |trace| ==> longer[k] == trace[k];
    }
  }

  lemma {:induction false} AnnouncedBySent(order: ByteOrder, trace: seq<Entry>, es: seq<Entry>, interfaceName: Text)
    requires forall i :: 0 <= i < |es| ==> es[i].Sent?
    ensures WasAnnounced(order, trace + es, interfaceName) <==> WasAnnounced(order, trace, interfaceName)
    decreases |es|
  {
    hide WasAnnounced, IsAnnouncement;
    if |es| == 0 {
      assert trace + es == trace;
    } else {
      var front, last := es[..|es| - 1], es[|es| - 1];
      AnnouncedBySent(order, trace, front, interfaceName);
      AnnouncedByOne(order, trace + front, last, interfaceName);
      assert trace + es == trace + front + [last];
    }
  }

  /** Seat and manager are known exactly if the registry has announced one. */
  ghost predicate KnownIffAnnounced(order: ByteOrder, s: State) {
    && (s.data.seatId.Some? <==> WasAnnounced(order, s.trace, WlSeat()))
    && (s.data.clipboardManagerId.Some? <==> WasAnnounced(order, s.trace, DataControlManager()))
  }

  /** Sending does not announce anything. */
  lemma KnownKept(order: ByteOrder, s: State, s': State)
    requires KnownIffAnnounced(order, s)
    requires |s.trace| <= |s'.trace| && s'.trace[..|s.trace|] == s.trace
    requires forall i :: |s.trace| <= i < |s'.trace| ==> s'.trace[i].Sent?
    requires s'.data.seatId == s.data.seatId && s'.data.clipboardManagerId == s.data.clipboardManagerId
    ensures KnownIffAnnounced(order, s')
  {
    hide WasAnnounced, WlSeat, DataControlManager;
    var es := s'.trace[|s.trace|..];
    assert s'.trace == s.trace + es;
    AnnouncedBySent(order, s.trace, es, WlSeat());
    AnnouncedBySent(order, s.trace, es, DataControlManager());
  }

  lemma AnnouncementReached(order: ByteOrder, s: State, p: PacketData, name: u32, interfaceName: Text, version: u32)
    requires s.data.registryId == Some(REGISTRY) && p.objectId == REGISTRY
    requires Announces(order, p, name, interfaceName, version)
    ensures OnPacket(order, s, p) == Some(BindGlobal(s, REGISTRY, name, interfaceName, version))
  {
    hide DecodeArgs, BindGlobal;
  }

  /** One announcement has one meaning. */
  lemma AnnouncementUnique(order: ByteOrder, p: PacketData, name: u32, interfaceName: Text, version: u32)
    requires p.objectId == REGISTRY && Announces(order, p, name, interfaceName, version)
    ensures forall other :: IsAnnouncement(order, p, other) <==> other == interfaceName
  {
    hide DecodeArgs;
    forall other | IsAnnouncement(order, p, other)
      ensures other == interfaceName
    {
      var n, v :| Announces(order, p, n, other, v);
      assert [UintV(n), StrV(other), UintV(v)][1] == [UintV(name), StrV(interfaceName), UintV(version)][1];
    }
    assert IsAnnouncement(order, p, interfaceName);
  }

  lemma PacketKeepsKnown(order: ByteOrder, s: State, p: PacketData)
    requires KnownIffAnnounced(order, s) && Shape(s) && OnPacket(order, Hearing(s, p), p).Some?
    ensures KnownIffAnnounced(order, OnPacket(order, Hearing(s, p), p).value)
  {
    hide WasAnnounced, WlSeat, DataControlManager, OnPacket, Announces, NextId, PlainTextMimeTypes, BindGlobal;
    SeatIsNotManager();
    var h := Hearing(s, p);
    var s' := OnPacket(order, h, p).value;
    AnnouncedByOne(order, s.trace, Heard(p), WlSeat());
    AnnouncedByOne(order, s.trace, Heard(p), DataControlManager());
    if interfaceName: Text :| IsAnnouncement(order, p, interfaceName) {
      var name, version :| Announces(order, p, name, interfaceName, version);
      AnnouncementReached(order, h, p, name, interfaceName, version);
      AnnouncementUnique(order, p, name, interfaceName, version);
      BindMakesKnown(order, h, name, interfaceName, version);
      AnnouncedBySent(order, h.trace, s'.trace[|h.trace|..], WlSeat());
      AnnouncedBySent(order, h.trace, s'.trace[|h.trace|..], DataControlManager());
    } else {
      var name, interfaceName, version, _, _ := PacketCases(order, h, p);
      assert !IsAnnouncement(order, p, interfaceName);
      KnownKept(order, h, s');
    }
  }

  lemma BindMakesKnown(order: ByteOrder, s: State, name: u32, interfaceName: Text, version: u32)
    ensures var s' := BindGlobal(s, REGISTRY, name, interfaceName, version);
            && |s.trace| <= |s'.trace| && s'.trace == s.trace + s'.trace[|s.trace|..]
            && (forall i :: |s.trace| <= i < |s'.trace| ==> s'.trace[i].Sent?)
            && (s'.data.seatId.Some? <==> s.data.seatId.Some? || interfaceName == WlSeat())
            && (s'.data.clipboardManagerId.Some? <==>
                  s.data.clipboardManagerId.Some? || interfaceName == DataControlManager())
  {
    hide WlSeat, DataControlManager, NextId;
    SeatIsNotManager();
  }

  /** In every run, a seat is bound exactly if the registry has announced one, and a clipboard manager
      likewise; so the data device is asked for exactly if both were announced. */
  lemma {:induction false} EveryAnnouncementBound(order: ByteOrder, inputs: seq<Input>)
    requires Run(order, inputs).Some?
    ensures KnownIffAnnounced(order, Run(order, inputs).value) && Shape(Run(order, inputs).value)
    decreases |inputs|
  {
    hide KnownIffAnnounced, OnPacket, NextId, Shape, PlainTextMimeTypes;
    if |inputs| == 0 {
      InitialKnown(order);
    } else {
      var front, input := inputs[..|inputs| - 1], inputs[|inputs| - 1];
      var s, s' := Run(order, front).value, Run(order, inputs).value;
      EveryAnnouncementBound(order, front);
      ShapeKept(order, s, input);
      match input {
        case Copy(_) => KnownKept(order, s, s');
        case Clear => KnownKept(order, s, s');
        case Incoming(p) => PacketKeepsKnown(order, s, p);
      }
    }
  }

  lemma InitialKnown(order: ByteOrder)
    ensures KnownIffAnnounced(order, INIT) && Shape(INIT)
  {
  }
}
