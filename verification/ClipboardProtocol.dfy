/** An observer of the wire who knows the rules of wl_registry and ext-data-control-v1 but nothing of
    the program, and the theorem that says exactly in which runs the program never breaks them. */
module ClipboardProtocol {
  import opened Numbers
  import opened Outcomes
  import opened Packets
  import opened Codec
  import opened Generator
  import opened Framing
  import opened Clipboard
  import opened ClipboardRuns

  // ----- the observer -----

  /** A source takes offers until it is selected, is selected once, and may be cancelled by the compositor. */
  datatype Phase = Offering | Selected | Cancelled

  datatype Role = Registry | Seat | Manager | Device(finished: bool) | Source(phase: Phase, offered: seq<Text>)

  /** The live objects of the client, the only ID the next new object may have, and the globals the
      compositor has announced: interface and version by name. */
  datatype Observer = Observer(objects: map<Id, Role>, nextId: nat, globals: map<u32, (Text, u32)>)

  const REGISTRY_GLOBAL_REMOVE := Procedure("global_remove", [Arg("name", Uint, None)])
  const GLOBAL_REMOVE_OPCODE := 1

  function Has(o: Observer, id: Id, role: Role): bool {
    id in o.objects && o.objects[id] == role
  }

  function New(o: Observer, id: Id, role: Role): Option<Observer> {
    if id == o.nextId then Some(o.(objects := o.objects[id := role], nextId := o.nextId + 1)) else None
  }

  /** The global of this name exists, has this interface, and at least this version. */
  predicate Announced(o: Observer, name: u32, interfaceName: Text, version: u32) {
    name in o.globals && o.globals[name].0 == interfaceName && version <= o.globals[name].1
  }

  /** Nothing if the request breaks a rule. */
  function Judge(o: Observer, r: Clipboard.Request): Option<Observer> {
    match r
    case GetRegistry(id) => New(o, id, Registry)
    case Bind(registry, name, interfaceName, version, id) =>
      if !Has(o, registry, Registry) || !Announced(o, name, interfaceName, version) then None
      else if interfaceName == WlSeat() then New(o, id, Seat)
      else if interfaceName == DataControlManager() then New(o, id, Manager)
      else None
    case CreateDataSource(manager, id) =>
      if Has(o, manager, Manager) then New(o, id, Source(Offering, [])) else None
    case GetDataDevice(manager, id, seat) =>
      if Has(o, manager, Manager) && Has(o, seat, Seat) then New(o, id, Device(false)) else None
    case Offer(source, mimeType) =>
      if source in o.objects && o.objects[source].Source? && o.objects[source].phase == Offering then
        Some(o.(objects := o.objects[source := Source(Offering, o.objects[source].offered + [mimeType])]))
      else None
    case SetSelection(device, source) =>
      if && Has(o, device, Device(false))
         && source in o.objects && o.objects[source].Source? && o.objects[source].phase == Offering
      then Some(o.(objects := o.objects[source := Source(Selected, o.objects[source].offered)]))
      else None
    case DestroySource(source) =>
      if source in o.objects && o.objects[source].Source? && o.objects[source].phase == Selected then
        Some(o.(objects := o.objects - {source}))
      else None
  }

  /** Globals come and go. */
  function ListenToRegistry(order: ByteOrder, o: Observer, p: PacketData): Observer {
    if p.opcode == GLOBAL_OPCODE then
      var args := DecodeArgs(order, REGISTRY_GLOBAL, p);
      if args.Ok? && GlobalArgs(args.value) then
        o.(globals := o.globals[args.value[0].uint := (args.value[1].text, args.value[2].uint)])
      else o
    else if p.opcode == GLOBAL_REMOVE_OPCODE then
      var args := DecodeArgs(order, REGISTRY_GLOBAL_REMOVE, p);
      if args.Ok? && |args.value| == 1 && args.value[0].UintV? then
        o.(globals := o.globals - {args.value[0].uint})
      else o
    else o
  }

  /** Events announce and remove globals, and end a source's or a device's usefulness. */
  function Listen(order: ByteOrder, o: Observer, p: PacketData): Observer {
    if p.objectId !in o.objects then o
    else
      match o.objects[p.objectId]
      case Registry => ListenToRegistry(order, o, p)
      case Source(_, offered) =>
        if p.opcode == CANCELLED_OPCODE then o.(objects := o.objects[p.objectId := Source(Cancelled, offered)]) else o
      case Device(_) =>
        if p.opcode == FINISHED_OPCODE then o.(objects := o.objects[p.objectId := Device(true)]) else o
      case _ => o
  }

  function Observe(order: ByteOrder, o: Observer, e: Entry): Option<Observer> {
    match e
    case Sent(r) => Judge(o, r)
    case Heard(p) => Some(Listen(order, o, p))
  }

  /** The verdict on a trace: nothing as soon as a rule is broken. */
  function Verdict(order: ByteOrder, trace: seq<Entry>): Option<Observer> {
    if |trace| == 0 then Some(Observer(map[], 2, map[]))
    else
      match Verdict(order, trace[..|trace| - 1])
      case None => None
      case Some(o) => Observe(order, o, trace[|trace| - 1])
  }

  lemma VerdictOne(order: ByteOrder, trace: seq<Entry>, e: Entry)
    ensures Verdict(order, trace + [e])
         == if Verdict(order, trace).None? then None else Observe(order, Verdict(order, trace).value, e)
  {
    hide Observe;
    assert (trace + [e])[..|trace|] == trace;
  }

  lemma {:induction false} BrokenStaysBroken(order: ByteOrder, trace: seq<Entry>, longer: seq<Entry>)
    requires |trace| <= |longer| && longer[..|trace|] == trace
    requires Verdict(order, trace).None?
    ensures Verdict(order, longer).None?
    decreases |longer|
  {
    hide Observe;
    if |trace| < |longer| {
      var front := longer[..|longer| - 1];
      assert front[..|trace|] == trace;
      BrokenStaysBroken(order, trace, front);
    } else {
      assert longer == trace;
    }
  }

  // ----- the device's fate, from the trace alone -----

  /** The data device that was asked for last, and whether the compositor has declared it finished since. */
  function DeviceFate(trace: seq<Entry>): (Option<Id>, bool) {
    if |trace| == 0 then (None, false)
    else
      var (device, finished) := DeviceFate(trace[..|trace| - 1]);
      match trace[|trace| - 1]
      case Sent(GetDataDevice(_, id, _)) => (Some(id), false)
      case Heard(p) => (device, finished || (device == Some(p.objectId) && p.opcode == FINISHED_OPCODE))
      case _ => (device, finished)
  }

  function FateAfter(fate: (Option<Id>, bool), e: Entry): (Option<Id>, bool) {
    match e
    case Sent(GetDataDevice(_, id, _)) => (Some(id), false)
    case Heard(p) => (fate.0, fate.1 || (fate.0 == Some(p.objectId) && p.opcode == FINISHED_OPCODE))
    case _ => fate
  }

  lemma FateOne(trace: seq<Entry>, e: Entry)
    ensures DeviceFate(trace + [e]) == FateAfter(DeviceFate(trace), e)
  {
    assert (trace + [e])[..|trace|] == trace;
  }

  /** No copy ever publishes a source after the compositor has declared the data device finished. */
  predicate NoCopyAfterFinished(order: ByteOrder, inputs: seq<Input>) {
    |inputs| == 0 ||
    var before := Run(order, inputs[..|inputs| - 1]);
    && NoCopyAfterFinished(order, inputs[..|inputs| - 1])
    && (before.Some? && inputs[|inputs| - 1].Copy? && Publishes(before.value) ==> !DeviceFate(before.value.trace).1)
  }

  // ----- how the program's fields and the observer's objects correspond -----

  predicate RoleFits(data: Data, finished: bool, id: Id, role: Role) {
    match role
    case Registry => data.registryId == Some(id)
    case Seat => data.seatId == Some(id)
    case Manager => data.clipboardManagerId == Some(id)
    case Device(f) => data.clipboardDeviceId == Some(id) && f == finished
    case Source(Selected, offered) => data.clipboardSourceId == Some(id) && offered == PlainTextMimeTypes()
    case Source(Cancelled, _) => true
    case Source(Offering, _) => false
  }

  predicate FieldFits(o: Observer, field: Option<Id>, role: Role) {
    field.Some? ==> Has(o, field.value, role)
  }

  predicate Corresponds(data: Data, o: Observer, finished: bool) {
    && (forall id :: id in o.objects ==> 2 <= id < o.nextId && RoleFits(data, finished, id, o.objects[id]))
    && FieldFits(o, data.registryId, Registry)
    && FieldFits(o, data.seatId, Seat)
    && FieldFits(o, data.clipboardManagerId, Manager)
    && FieldFits(o, data.clipboardDeviceId, Device(finished))
    && FieldFits(o, data.clipboardSourceId, Source(Selected, PlainTextMimeTypes()))
  }

  /** The observer has found no fault and sees what the program sees. */
  predicate Agreement(order: ByteOrder, s: State) {
    && Verdict(order, s.trace).Some?
    && DeviceFate(s.trace).0 == s.data.clipboardDeviceId
    && Verdict(order, s.trace).value.nextId == s.nextObjectId
    && Corresponds(s.data, Verdict(order, s.trace).value, DeviceFate(s.trace).1)
  }

  lemma AgreementAfter(order: ByteOrder, s: State, s': State, e: Entry)
    requires Verdict(order, s.trace).Some? && s'.trace == s.trace + [e]
    requires Observe(order, Verdict(order, s.trace).value, e).Some?
    requires var o := Observe(order, Verdict(order, s.trace).value, e).value;
             var fate := FateAfter(DeviceFate(s.trace), e);
             fate.0 == s'.data.clipboardDeviceId && o.nextId == s'.nextObjectId && Corresponds(s'.data, o, fate.1)
    ensures Agreement(order, s')
  {
    hide Observe, Corresponds;
    VerdictOne(order, s.trace, e);
    FateOne(s.trace, e);
  }

  // ----- each input keeps the agreement -----

  lemma SeatBound(order: ByteOrder, s: State, registry: Id, name: u32, interfaceName: Text, version: u32)
    requires Agreement(order, s) && s.data.registryId == Some(registry) && s.data.seatId.None?
    requires interfaceName == WlSeat()
    requires Announced(Verdict(order, s.trace).value, name, interfaceName, version)
    requires NextId(s.nextObjectId) == (s.nextObjectId, s.nextObjectId + 1)
    ensures Agreement(order, Send(s, Clipboard.Bind(registry, name, interfaceName, version, s.nextObjectId))
                        .(nextObjectId := s.nextObjectId + 1, data := s.data.(seatId := Some(s.nextObjectId))))
  {
    hide WlSeat, DataControlManager, PlainTextMimeTypes, Verdict, DeviceFate;
    var r := Clipboard.Bind(registry, name, interfaceName, version, s.nextObjectId);
    var s' := Send(s, r).(nextObjectId := s.nextObjectId + 1, data := s.data.(seatId := Some(s.nextObjectId)));
    AgreementAfter(order, s, s', Sent(r));
  }

  lemma ManagerBound(order: ByteOrder, s: State, registry: Id, name: u32, interfaceName: Text, version: u32)
    requires Agreement(order, s) && s.data.registryId == Some(registry) && s.data.clipboardManagerId.None?
    requires Announced(Verdict(order, s.trace).value, name, interfaceName, version)
    requires interfaceName == DataControlManager() && interfaceName != WlSeat()
    requires NextId(s.nextObjectId) == (s.nextObjectId, s.nextObjectId + 1)
    ensures Agreement(order, Send(s, Clipboard.Bind(registry, name, interfaceName, version, s.nextObjectId))
                        .(nextObjectId := s.nextObjectId + 1,
                          data := s.data.(clipboardManagerId := Some(s.nextObjectId))))
  {
    hide WlSeat, DataControlManager, PlainTextMimeTypes, Verdict, DeviceFate;
    var r := Clipboard.Bind(registry, name, interfaceName, version, s.nextObjectId);
    var s' := Send(s, r).(nextObjectId := s.nextObjectId + 1,
                          data := s.data.(clipboardManagerId := Some(s.nextObjectId)));
    AgreementAfter(order, s, s', Sent(r));
  }

  lemma DeviceObtained(order: ByteOrder, s: State)
    requires Agreement(order, s) && s.data.clipboardDeviceId.None?
    requires s.data.seatId.Some? && s.data.clipboardManagerId.Some? ==>
               NextId(s.nextObjectId) == (s.nextObjectId, s.nextObjectId + 1)
    ensures Agreement(order, ObtainDataDeviceIfReady(s))
  {
    hide PlainTextMimeTypes, Verdict, DeviceFate, NextId;
    var s' := ObtainDataDeviceIfReady(s);
    if s.data.seatId.Some? && s.data.clipboardManagerId.Some? {
      var r := GetDataDevice(s.data.clipboardManagerId.value, s.nextObjectId, s.data.seatId.value);
      assert s'.trace == s.trace + [Sent(r)];
      AgreementAfter(order, s, s', Sent(r));
    }
  }

  lemma GlobalBound(order: ByteOrder, s: State, registry: Id, name: u32, interfaceName: Text, version: u32)
    requires Agreement(order, s) && Shape(s) && IdsInOrder(s) && s.data.registryId == Some(registry)
    requires Announced(Verdict(order, s.trace).value, name, interfaceName, version)
    requires |NewIds(BindGlobal(s, registry, name, interfaceName, version).trace)| <= MAX_IDS
    ensures Agreement(order, BindGlobal(s, registry, name, interfaceName, version))
  {
    hide WlSeat, DataControlManager, Agreement, IdsInOrder, NextId, NewIds;
    SeatIsNotManager();
    var s' := BindGlobal(s, registry, name, interfaceName, version);
    if s' != s {
      BindGlobalRoom(s, registry, name, interfaceName, version);
      if interfaceName == WlSeat() && s.data.seatId.None? {
        SeatBound(order, s, registry, name, interfaceName, version);
        DeviceObtained(order, Send(s, Clipboard.Bind(registry, name, interfaceName, version, s.nextObjectId))
                         .(nextObjectId := s.nextObjectId + 1, data := s.data.(seatId := Some(s.nextObjectId))));
      } else {
        ManagerBound(order, s, registry, name, interfaceName, version);
        DeviceObtained(order, Send(s, Clipboard.Bind(registry, name, interfaceName, version, s.nextObjectId))
                         .(nextObjectId := s.nextObjectId + 1,
                          data := s.data.(clipboardManagerId := Some(s.nextObjectId))));
      }
    }
  }

  /** Below the limit the counter does not wrap while a global is bound. */
  lemma BindGlobalRoom(s: State, registry: Id, name: u32, interfaceName: Text, version: u32)
    requires IdsInOrder(s) && Shape(s) && BindGlobal(s, registry, name, interfaceName, version) != s
    requires |NewIds(BindGlobal(s, registry, name, interfaceName, version).trace)| <= MAX_IDS
    ensures NextId(s.nextObjectId) == (s.nextObjectId, s.nextObjectId + 1)
    ensures (s.data.seatId.Some? || s.data.clipboardManagerId.Some?) ==>
              NextId(s.nextObjectId + 1) == (s.nextObjectId + 1, s.nextObjectId + 2)
  {
    hide WlSeat, DataControlManager, NextId, NewIds, NewIdsIn;
    var s' := BindGlobal(s, registry, name, interfaceName, version);
    var id := NextId(s.nextObjectId).0;
    var r := Clipboard.Bind(registry, name, interfaceName, version, id);
    NewIdsOne(s.trace, Sent(r));
    OneNewId(r);
    if s'.trace != s.trace + [Sent(r)] {
      var last := s'.trace[|s'.trace| - 1];
      assert s'.trace == s.trace + [Sent(r)] + [last];
      NewIdsOne(s.trace + [Sent(r)], last);
      OneNewId(last.request);
      NextIdFresh(s.nextObjectId + 1);
    }
    NextIdFresh(s.nextObjectId);
  }

  lemma OneNewId(r: Clipboard.Request)
    requires r.Bind? || r.GetDataDevice?
    ensures |NewIdsIn(Sent(r))| == 1
  {
  }

  lemma NextIdFresh(counter: u32)
    requires 0 < counter < 0xFFFF_FFFF
    ensures NextId(counter) == (counter, counter + 1)
  {
  }

  lemma RegistryChangesGlobals(order: ByteOrder, o: Observer, p: PacketData)
    ensures ListenToRegistry(order, o, p) == o.(globals := ListenToRegistry(order, o, p).globals)
  {
    hide DecodeArgs;
  }

  /** The observer and the program hear the same packet; the program has lost its source exactly when
      the observer has seen it cancelled. */
  lemma PacketHeard(order: ByteOrder, s: State, p: PacketData)
    requires Agreement(order, s) && Shape(s)
    ensures !(ForSource(s, p) && p.opcode == CANCELLED_OPCODE) ==> Agreement(order, Hearing(s, p))
    ensures ForSource(s, p) && p.opcode == CANCELLED_OPCODE ==> Agreement(order, SourceLost(Hearing(s, p)))
  {
    hide Agreement;
    if ForSource(s, p) && p.opcode == CANCELLED_OPCODE {
      CancelHeard(order, s, p);
    } else {
      OtherHeard(order, s, p);
    }
  }

  lemma CancelHeard(order: ByteOrder, s: State, p: PacketData)
    requires Agreement(order, s) && ForSource(s, p) && p.opcode == CANCELLED_OPCODE
    ensures Agreement(order, SourceLost(Hearing(s, p)))
  {
    hide PlainTextMimeTypes, Verdict, DeviceFate, ListenToRegistry;
    AgreementAfter(order, s, SourceLost(Hearing(s, p)), Heard(p));
  }

  lemma OtherHeard(order: ByteOrder, s: State, p: PacketData)
    requires Agreement(order, s) && Shape(s) && !(ForSource(s, p) && p.opcode == CANCELLED_OPCODE)
    ensures Agreement(order, Hearing(s, p))
  {
    hide PlainTextMimeTypes, Verdict, DeviceFate, ListenToRegistry;
    RegistryChangesGlobals(order, Verdict(order, s.trace).value, p);
    AgreementAfter(order, s, Hearing(s, p), Heard(p));
  }

  /** What the program binds, the observer has just heard announced. */
  lemma AnnouncementHeard(order: ByteOrder, s: State, p: PacketData, name: u32, interfaceName: Text, version: u32)
    requires Agreement(order, s) && s.data.registryId == Some(p.objectId)
    requires Announces(order, p, name, interfaceName, version)
    ensures Verdict(order, Hearing(s, p).trace).Some?
    ensures Announced(Verdict(order, Hearing(s, p).trace).value, name, interfaceName, version)
  {
    hide Verdict, DeviceFate, DecodeArgs;
    VerdictOne(order, s.trace, Heard(p));
  }

  lemma PacketKeepsAgreement(order: ByteOrder, s: State, p: PacketData)
    requires Agreement(order, s) && Shape(s) && IdsInOrder(s) && OnPacket(order, Hearing(s, p), p).Some?
    requires |NewIds(OnPacket(order, Hearing(s, p), p).value.trace)| <= MAX_IDS
    ensures Agreement(order, OnPacket(order, Hearing(s, p), p).value)
  {
    hide OnPacket, BindGlobal, NewIds, IdsInOrder, Verdict, DeviceFate, PlainTextMimeTypes, DecodeArgs;
    var h := Hearing(s, p);
    var s' := OnPacket(order, h, p).value;
    PacketHeard(order, s, p);
    HeardDrawsNothing(s, p);
    var name, interfaceName, version, _, _ := PacketCases(order, h, p);
    if && Announces(order, p, name, interfaceName, version) && s.data.registryId == Some(p.objectId)
       && s' == BindGlobal(h, p.objectId, name, interfaceName, version) {
      AnnouncementHeard(order, s, p, name, interfaceName, version);
      GlobalBound(order, h, p.objectId, name, interfaceName, version);
    } else if ForSource(s, p) && p.opcode == CANCELLED_OPCODE {
      CancelledIsLost(order, h, p);
    }
  }

  lemma CancelledIsLost(order: ByteOrder, s: State, p: PacketData)
    requires ForSource(s, p) && p.opcode == CANCELLED_OPCODE
    ensures OnPacket(order, s, p) == Some(SourceLost(s))
  {
  }

  lemma ClearKeepsAgreement(order: ByteOrder, s: State)
    requires Agreement(order, s) && Shape(s)
    ensures Agreement(order, Cleared(s))
  {
    hide PlainTextMimeTypes, Verdict, DeviceFate;
    if s.data.clipboardSourceId.Some? {
      var r := DestroySource(s.data.clipboardSourceId.value);
      AgreementAfter(order, s, Cleared(s), Sent(r));
    }
  }

  // ----- publishing a source -----

  /** Offering types one after the other on a new source. */
  lemma {:induction false} OffersObserved(order: ByteOrder, trace: seq<Entry>, source: Id, mimeTypes: seq<Text>)
    requires Verdict(order, trace).Some? && Has(Verdict(order, trace).value, source, Source(Offering, []))
    ensures Verdict(order, trace + Offers(source, mimeTypes))
         == Some(Verdict(order, trace).value.(
                   objects := Verdict(order, trace).value.objects[source := Source(Offering, mimeTypes)]))
    ensures DeviceFate(trace + Offers(source, mimeTypes)) == DeviceFate(trace)
    decreases |mimeTypes|
  {
    hide Verdict, DeviceFate;
    if |mimeTypes| == 0 {
      assert trace + Offers(source, mimeTypes) == trace;
      assert Verdict(order, trace).value.objects[source := Source(Offering, [])] == Verdict(order, trace).value.objects;
    } else {
      var front, last := mimeTypes[..|mimeTypes| - 1], mimeTypes[|mimeTypes| - 1];
      OffersObserved(order, trace, source, front);
      var e := Sent(Offer(source, last));
      assert trace + Offers(source, mimeTypes) == (trace + Offers(source, front)) + [e];
      VerdictOne(order, trace + Offers(source, front), e);
      FateOne(trace + Offers(source, front), e);
      assert front + [last] == mimeTypes;
      var o := Verdict(order, trace).value;
      assert o.objects[source := Source(Offering, front)][source := Source(Offering, mimeTypes)]
          == o.objects[source := Source(Offering, mimeTypes)];
    }
  }

  /** The whole publication passes the observer exactly when the device is not finished. */
  lemma PublicationObserved(order: ByteOrder, trace: seq<Entry>, manager: Id, device: Id, source: Id, finished: bool)
    requires Verdict(order, trace).Some? && Verdict(order, trace).value.nextId == source
    requires Has(Verdict(order, trace).value, manager, Manager)
    requires Has(Verdict(order, trace).value, device, Device(finished))
    requires device != source
    ensures finished ==> Verdict(order, trace + Publication(manager, device, source)).None?
    ensures !finished ==>
              Verdict(order, trace + Publication(manager, device, source))
              == Some(Verdict(order, trace).value.(
                        objects := Verdict(order, trace).value.objects[
                                     source := Source(Selected, PlainTextMimeTypes())],
                        nextId := source + 1))
    ensures DeviceFate(trace + Publication(manager, device, source)) == DeviceFate(trace)
  {
    hide Verdict, DeviceFate, PlainTextMimeTypes;
    var types := PlainTextMimeTypes();
    var o := Verdict(order, trace).value;
    var created := trace + [Sent(CreateDataSource(manager, source))];
    VerdictOne(order, trace, Sent(CreateDataSource(manager, source)));
    FateOne(trace, Sent(CreateDataSource(manager, source)));
    OffersObserved(order, created, source, types);
    var offered := created + Offers(source, types);
    VerdictOne(order, offered, Sent(SetSelection(device, source)));
    FateOne(offered, Sent(SetSelection(device, source)));
    assert trace + Publication(manager, device, source) == offered + [Sent(SetSelection(device, source))];
    assert o.objects[source := Source(Offering, [])]
             [source := Source(Offering, types)][source := Source(Selected, types)]
        == o.objects[source := Source(Selected, types)];
  }

  lemma CopyJudged(order: ByteOrder, s: State, content: Text)
    requires Agreement(order, s) && Shape(s) && IdsInOrder(s) && |NewIds(Copied(s, content).trace)| <= MAX_IDS
    ensures Publishes(s) && DeviceFate(s.trace).1 ==> Verdict(order, Copied(s, content).trace).None?
    ensures !(Publishes(s) && DeviceFate(s.trace).1) ==> Agreement(order, Copied(s, content))
  {
    hide Verdict, DeviceFate, PlainTextMimeTypes, Publication, NewIds, NextId;
    if Publishes(s) {
      var m, d, id := s.data.clipboardManagerId.value, s.data.clipboardDeviceId.value, NextId(s.nextObjectId).0;
      NewIdsConcat(s.trace, Publication(m, d, id));
      NewIdsOfPublication(m, d, id);
      NextIdFresh(s.nextObjectId);
      PublicationObserved(order, s.trace, m, d, id, DeviceFate(s.trace).1);
    }
  }

  // ----- every run -----

  lemma InputJudged(order: ByteOrder, s: State, input: Input)
    requires Agreement(order, s) && Shape(s) && IdsInOrder(s) && Respond(order, s, input).Some?
    requires |NewIds(Respond(order, s, input).value.trace)| <= MAX_IDS
    ensures input.Copy? && Publishes(s) && DeviceFate(s.trace).1 ==>
              Verdict(order, Respond(order, s, input).value.trace).None?
    ensures !(input.Copy? && Publishes(s) && DeviceFate(s.trace).1) ==> Agreement(order, Respond(order, s, input).value)
  {
    hide Agreement, Shape, IdsInOrder, NewIds, Verdict, DeviceFate, Copied, Cleared, OnPacket;
    match input
    case Copy(content) => CopyJudged(order, s, content);
    case Clear => ClearKeepsAgreement(order, s);
    case Incoming(p) => PacketKeepsAgreement(order, s, p);
  }

  lemma InitialAgreement(order: ByteOrder)
    ensures Agreement(order, INIT)
  {
    var e := Sent(GetRegistry(REGISTRY));
    VerdictOne(order, [], e);
    FateOne([], e);
    assert [] + [e] == INIT.trace;
  }

  lemma {:induction false} RunJudged(order: ByteOrder, inputs: seq<Input>)
    requires Run(order, inputs).Some? && |NewIds(Run(order, inputs).value.trace)| <= MAX_IDS
    ensures NoCopyAfterFinished(order, inputs) ==> Agreement(order, Run(order, inputs).value)
    ensures !NoCopyAfterFinished(order, inputs) ==> Verdict(order, Run(order, inputs).value.trace).None?
    decreases |inputs|
  {
    hide Respond, Shape, IdsInOrder, NewIds, Agreement, Verdict, DeviceFate, Publishes;
    if |inputs| == 0 {
      InitialAgreement(order);
    } else {
      var front, input := inputs[..|inputs| - 1], inputs[|inputs| - 1];
      var s, s' := Run(order, front).value, Run(order, inputs).value;
      NewIdsGrow(order, s, input);
      RunJudged(order, front);
      if NoCopyAfterFinished(order, front) {
        EveryState(order, front);
        InputJudged(order, s, input);
      } else {
        BrokenStaysBroken(order, s.trace, s'.trace);
      }
    }
  }

  /** The observer finds no fault with a run exactly when no copy published after the device was
      finished. Every request then goes to an object created earlier, of the right interface, neither
      destroyed nor cancelled, under the next free ID; only announced globals are bound, at no more than
      their announced version; every source is offered, then selected once, then destroyed at most once. */
  lemma ObeysProtocolIff(order: ByteOrder, inputs: seq<Input>)
    requires Run(order, inputs).Some? && |NewIds(Run(order, inputs).value.trace)| <= MAX_IDS
    ensures Verdict(order, Run(order, inputs).value.trace).Some? <==> NoCopyAfterFinished(order, inputs)
  {
    hide Run, NewIds, Verdict, NoCopyAfterFinished, DeviceFate;
    RunJudged(order, inputs);
  }
}
