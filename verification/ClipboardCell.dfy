/** The clipboard as its users see it: a cell that serves the last copied value, and the life of each
    data source. */
module ClipboardCell {
  import opened Numbers
  import opened Outcomes
  import opened Packets
  import opened Codec
  import opened Generator
  import opened FormsAgree
  import opened Framing
  import opened Clipboard
  import opened ClipboardRuns
  import opened ClipboardProtocol

  // ----- the life of one source -----

  predicate Concerns(r: Clipboard.Request, x: Id) {
    match r
    case CreateDataSource(_, id) => id == x
    case Offer(source, _) => source == x
    case SetSelection(_, source) => source == x
    case DestroySource(source) => source == x
    case _ => false
  }

  /** The requests of a trace that concern source x, in order. */
  function LifeOf(trace: seq<Entry>, x: Id): seq<Entry> {
    if |trace| == 0 then []
    else
      var last := trace[|trace| - 1];
      LifeOf(trace[..|trace| - 1], x) + if last.Sent? && Concerns(last.request, x) then [last] else []
  }

  lemma {:induction false} LifeConcat(a: seq<Entry>, b: seq<Entry>, x: Id)
    ensures LifeOf(a + b, x) == LifeOf(a, x) + LifeOf(b, x)
    decreases |b|
  {
    hide Concerns;
    if |b| == 0 {
      assert a + b == a;
    } else {
      var front := b[..|b| - 1];
      assert (a + b)[..|a + b| - 1] == a + front;
      LifeConcat(a, front, x);
    }
  }

  lemma LifeOne(trace: seq<Entry>, e: Entry, x: Id)
    ensures LifeOf(trace + [e], x) == LifeOf(trace, x) + if e.Sent? && Concerns(e.request, x) then [e] else []
  {
    hide Concerns;
    assert (trace + [e])[..|trace|] == trace;
  }

  lemma {:induction false} LifeAllOrNothing(es: seq<Entry>, x: Id, all: bool)
    requires forall i :: 0 <= i < |es| ==> (es[i].Sent? && Concerns(es[i].request, x) <==> all)
    ensures LifeOf(es, x) == if all then es else []
    decreases |es|
  {
    hide Concerns;
    if |es| > 0 {
      LifeAllOrNothing(es[..|es| - 1], x, all);
      assert es == es[..|es| - 1] + [es[|es| - 1]];
    }
  }

  lemma LifeOfPublication(manager: Id, device: Id, source: Id, x: Id)
    ensures LifeOf(Publication(manager, device, source), x)
         == if x == source then Publication(manager, device, source) else []
  {
    hide PlainTextMimeTypes;
    LifeAllOrNothing(Publication(manager, device, source), x, x == source);
  }

  /** The whole life of source x so far: nothing, or one creation, all offers and one selection, or
      that and one destruction; the current source is published and not destroyed. */
  predicate OneLife(s: State, x: Id) {
    var life := LifeOf(s.trace, x);
    || (life == [] && s.data.clipboardSourceId != Some(x))
    || (&& s.data.clipboardManagerId.Some? && s.data.clipboardDeviceId.Some?
        && var publication := Publication(s.data.clipboardManagerId.value, s.data.clipboardDeviceId.value, x);
           || life == publication
           || (life == publication + [Sent(DestroySource(x))] && s.data.clipboardSourceId != Some(x)))
  }

  predicate Lives(s: State) {
    && (forall x: Id :: OneLife(s, x))
    && (forall x: Id :: x >= s.nextObjectId ==> LifeOf(s.trace, x) == [])
  }

  /** A step that sends nothing about sources keeps every life. */
  lemma LivesKeptBy(s: State, s': State, es: seq<Entry>)
    requires Lives(s) && s'.trace == s.trace + es && s'.nextObjectId >= s.nextObjectId
    requires forall i, x: Id :: 0 <= i < |es| ==> !(es[i].Sent? && Concerns(es[i].request, x))
    requires s.data.clipboardManagerId.Some? ==> s'.data.clipboardManagerId == s.data.clipboardManagerId
    requires s.data.clipboardDeviceId.Some? ==> s'.data.clipboardDeviceId == s.data.clipboardDeviceId
    requires s'.data.clipboardSourceId.Some? ==> s'.data.clipboardSourceId == s.data.clipboardSourceId
    ensures Lives(s')
  {
    hide Concerns, Publication, LifeOf;
    forall x: Id
      ensures LifeOf(s'.trace, x) == LifeOf(s.trace, x)
    {
      LifeConcat(s.trace, es, x);
      LifeAllOrNothing(es, x, false);
    }
    forall x: Id
      ensures OneLife(s', x)
    {
      assert OneLife(s, x);
    }
  }

  lemma CopyKeepsLives(s: State, content: Text)
    requires Lives(s) && Shape(s) && IdsInOrder(s) && |NewIds(Copied(s, content).trace)| <= MAX_IDS
    ensures Lives(Copied(s, content))
  {
    hide Publication, LifeOf, NewIds, NextId, Concerns;
    var s' := Copied(s, content);
    if Publishes(s) {
      var m, d, id := s.data.clipboardManagerId.value, s.data.clipboardDeviceId.value, NextId(s.nextObjectId).0;
      NewIdsConcat(s.trace, Publication(m, d, id));
      NewIdsOfPublication(m, d, id);
      NextIdFresh(s.nextObjectId);
      assert LifeOf(s.trace, id) == [];
      forall x: Id
        ensures LifeOf(s'.trace, x) == if x == id then Publication(m, d, id) else LifeOf(s.trace, x)
      {
        LifeConcat(s.trace, Publication(m, d, id), x);
        LifeOfPublication(m, d, id, x);
      }
      forall x: Id
        ensures OneLife(s', x)
      {
        assert OneLife(s, x);
      }
    } else {
      assert s.trace + [] == s.trace;
      LivesKeptBy(s, s', []);
    }
  }

  lemma ClearKeepsLives(s: State)
    requires Lives(s) && Shape(s) && IdsInOrder(s)
    ensures Lives(Cleared(s))
  {
    hide Publication, LifeOf, NewIds;
    var s' := Cleared(s);
    if s.data.clipboardSourceId.Some? {
      var y := s.data.clipboardSourceId.value;
      assert OneLife(s, y);
      assert y < s.nextObjectId by {
        PublicationNotEmpty(s.data.clipboardManagerId.value, s.data.clipboardDeviceId.value, y);
      }
      forall x: Id
        ensures LifeOf(s'.trace, x) == LifeOf(s.trace, x) + if x == y then [Sent(DestroySource(y))] else []
      {
        LifeOne(s.trace, Sent(DestroySource(y)), x);
      }
      forall x: Id
        ensures OneLife(s', x)
      {
        assert OneLife(s, x);
      }
    } else {
      assert s.trace + [] == s.trace;
      LivesKeptBy(s, s', []);
    }
  }

  lemma PublicationNotEmpty(manager: Id, device: Id, source: Id)
    ensures Publication(manager, device, source) != []
    ensures Publication(manager, device, source) + [Sent(DestroySource(source))] != []
  {
  }

  lemma PacketKeepsLives(order: ByteOrder, s: State, p: PacketData)
    requires Lives(s) && Shape(s) && IdsInOrder(s) && OnPacket(order, Hearing(s, p), p).Some?
    requires |NewIds(OnPacket(order, Hearing(s, p), p).value.trace)| <= MAX_IDS
    ensures Lives(OnPacket(order, Hearing(s, p), p).value)
  {
    hide OnPacket, LifeOf, Publication, NewIds, NextId, WlSeat, DataControlManager, Lives, PlainTextMimeTypes;
    var h := Hearing(s, p);
    var s' := OnPacket(order, h, p).value;
    HeardDrawsNothing(s, p);
    PacketKeepsIds(order, s, p);
    var _, _, _, _, _ := PacketCases(order, h, p);
    NewIdsGrow(order, s, Incoming(p));
    LivesKeptBy(s, s', s'.trace[|s.trace|..]);
  }

  // ----- one cell -----

  /** What was copied last and not cleared since. */
  function CellOf(inputs: seq<Input>): Option<Text> {
    if |inputs| == 0 then None
    else
      match inputs[|inputs| - 1]
      case Copy(content) => Some(content)
      case Clear => None
      case Incoming(_) => CellOf(inputs[..|inputs| - 1])
  }

  /** Stored content is the cell's content; the compositor can only make the program forget it. */
  predicate StoresCell(s: State, inputs: seq<Input>) {
    s.data.clipboardData.Some? ==> s.data.clipboardData == CellOf(inputs)
  }

  lemma InputKeepsLives(order: ByteOrder, s: State, input: Input)
    requires Lives(s) && Shape(s) && IdsInOrder(s) && Respond(order, s, input).Some?
    requires |NewIds(Respond(order, s, input).value.trace)| <= MAX_IDS
    ensures Lives(Respond(order, s, input).value)
  {
    hide Lives, Shape, IdsInOrder, NewIds, Copied, Cleared, OnPacket;
    match input
    case Copy(content) => CopyKeepsLives(s, content);
    case Clear => ClearKeepsLives(s);
    case Incoming(p) => PacketKeepsLives(order, s, p);
  }

  /** In every run, every source's requests are one whole publication and at most one destruction. */
  lemma {:induction false} EveryLife(order: ByteOrder, inputs: seq<Input>)
    requires Run(order, inputs).Some? && |NewIds(Run(order, inputs).value.trace)| <= MAX_IDS
    ensures Lives(Run(order, inputs).value)
    decreases |inputs|
  {
    hide Respond, Shape, IdsInOrder, NewIds, Lives;
    if |inputs| == 0 {
      InitialLives();
    } else {
      var s := Run(order, inputs[..|inputs| - 1]).value;
      NewIdsGrow(order, s, inputs[|inputs| - 1]);
      EveryLife(order, inputs[..|inputs| - 1]);
      EveryState(order, inputs[..|inputs| - 1]);
      InputKeepsLives(order, s, inputs[|inputs| - 1]);
    }
  }

  lemma InitialLives()
    ensures Lives(INIT)
  {
    forall x: Id
      ensures LifeOf(INIT.trace, x) == []
    {
      LifeAllOrNothing(INIT.trace, x, false);
    }
  }

  lemma CellKept(order: ByteOrder, s: State, inputs: seq<Input>, input: Input)
    requires StoresCell(s, inputs) && Respond(order, s, input).Some?
    ensures StoresCell(Respond(order, s, input).value, inputs + [input])
  {
    hide OnPacket, Publication, PlainTextMimeTypes, WlSeat, DataControlManager, NextId;
    assert (inputs + [input])[..|inputs|] == inputs;
    if input.Incoming? {
      var _, _, _, _, _ := PacketCases(order, Hearing(s, input.packet), input.packet);
    }
  }

  /** In every run, what is stored is what was copied last and not cleared since. */
  lemma {:induction false} EveryCell(order: ByteOrder, inputs: seq<Input>)
    ensures Run(order, inputs).Some? ==> StoresCell(Run(order, inputs).value, inputs)
    decreases |inputs|
  {
    hide Respond;
    if |inputs| > 0 {
      var front := inputs[..|inputs| - 1];
      EveryCell(order, front);
      assert inputs == front + [inputs[|inputs| - 1]];
      if Run(order, inputs).Some? {
        CellKept(order, Run(order, front).value, front, inputs[|inputs| - 1]);
      }
    }
  }

  // ----- serving -----

  /** Whoever asks the live source for its content gets the last copied value, written once before the
      descriptor is closed, if the type is among those offered for that source; otherwise the
      descriptor is just closed. Nothing else changes. The request may be any packet that decodes as
      such, whatever its padding. */
  lemma ServesLastCopied(order: ByteOrder, inputs: seq<Input>, p: PacketData, mimeType: Text, fd: Fd)
    requires Run(order, inputs).Some? && |NewIds(Run(order, inputs).value.trace)| <= MAX_IDS
    requires Run(order, inputs).value.data.clipboardSourceId == Some(p.objectId) && Asks(order, p, mimeType, fd)
    ensures var s := Run(order, inputs).value;
            var offered := Sent(Offer(p.objectId, mimeType)) in LifeOf(s.trace, p.objectId);
            && CellOf(inputs).Some?
            && Run(order, inputs + [Incoming(p)])
               == Some(s.(trace := s.trace + [Heard(p)],
                          pipes := s.pipes + (if offered then [WriteTo(fd, CellOf(inputs).value)] else [])
                                   + [CloseFd(fd)]))
  {
    hide LifeOf, PlainTextMimeTypes, Asks, NewIds, Publication, OnPacket, OwnIds;
    EveryState(order, inputs);
    EveryLife(order, inputs);
    EveryCell(order, inputs);
    var s := Run(order, inputs).value;
    var source := p.objectId;
    assert OneLife(s, source);
    PublicationNotEmpty(s.data.clipboardManagerId.value, s.data.clipboardDeviceId.value, source);
    OfferedTypes(s.data.clipboardManagerId.value, s.data.clipboardDeviceId.value, source, mimeType);
    SourceIsNoOther(order, inputs, source);
    ServedBySource(order, Hearing(s, p), p, mimeType, fd);
    assert (inputs + [Incoming(p)])[..|inputs|] == inputs;
    assert s.pipes + [] + [CloseFd(fd)] == s.pipes + [CloseFd(fd)];
  }

  lemma ServedBySource(order: ByteOrder, h: State, p: PacketData, mimeType: Text, fd: Fd)
    requires h.data.clipboardSourceId == Some(p.objectId) && Some(p.objectId) !in OwnIds(h.data)
    requires Asks(order, p, mimeType, fd)
    ensures OnPacket(order, h, p) == Some(Serve(h, mimeType, fd))
  {
    hide Serve, DecodeArgs, OnRegistry, OnSeat, OnDevice;
    NotOwn(h.data, p.objectId);
  }

  lemma OfferedTypes(manager: Id, device: Id, source: Id, mimeType: Text)
    ensures Sent(Offer(source, mimeType)) in Publication(manager, device, source) <==> mimeType in PlainTextMimeTypes()
  {
    hide PlainTextMimeTypes;
    var types := PlainTextMimeTypes();
    var offers := Offers(source, types);
    if mimeType in types {
      var i :| 0 <= i < |types| && types[i] == mimeType;
      assert offers[i] == Sent(Offer(source, mimeType));
    }
  }

  // ----- no object is taken for another -----

  /** The objects the dispatcher knows, other than the source. */
  function OwnIds(d: Data): seq<Option<Id>> {
    [Some(DISPLAY), d.registryId, d.seatId, d.clipboardManagerId, d.clipboardDeviceId]
  }

  /** They are pairwise different, below the counter, and none was ever a source. */
  predicate Apart(s: State) {
    var ids := OwnIds(s.data);
    && (forall i :: 0 <= i < |ids| && ids[i].Some? ==>
          ids[i].value < s.nextObjectId && LifeOf(s.trace, ids[i].value) == [])
    && (forall i, j :: 0 <= i < j < |ids| && ids[i].Some? ==> ids[i] != ids[j])
  }

  lemma CopyKeepsApart(s: State, content: Text)
    requires Apart(s) && IdsInOrder(s) && |NewIds(Copied(s, content).trace)| <= MAX_IDS
    ensures Apart(Copied(s, content))
  {
    hide Publication, LifeOf, NewIds, NextId;
    var s' := Copied(s, content);
    assert OwnIds(s'.data) == OwnIds(s.data);
    if Publishes(s) {
      var m, d, id := s.data.clipboardManagerId.value, s.data.clipboardDeviceId.value, NextId(s.nextObjectId).0;
      NewIdsConcat(s.trace, Publication(m, d, id));
      NewIdsOfPublication(m, d, id);
      NextIdFresh(s.nextObjectId);
      forall x: Id | x != id
        ensures LifeOf(s'.trace, x) == LifeOf(s.trace, x)
      {
        LifeConcat(s.trace, Publication(m, d, id), x);
        LifeOfPublication(m, d, id, x);
      }
    }
  }

  lemma ClearKeepsApart(s: State)
    requires Apart(s) && Lives(s)
    ensures Apart(Cleared(s))
  {
    hide LifeOf, Publication;
    var s' := Cleared(s);
    assert OwnIds(s'.data) == OwnIds(s.data);
    if s.data.clipboardSourceId.Some? {
      var y := s.data.clipboardSourceId.value;
      assert OneLife(s, y);
      PublicationNotEmpty(s.data.clipboardManagerId.value, s.data.clipboardDeviceId.value, y);
      forall x: Id | x != y
        ensures LifeOf(s'.trace, x) == LifeOf(s.trace, x)
      {
        LifeOne(s.trace, Sent(DestroySource(y)), x);
      }
    }
  }

  /** Sending one request that introduces an object other than a source. */
  lemma IntroduceKeepsApart(s: State, s': State, r: Clipboard.Request, k: nat)
    requires Apart(s) && (forall x: Id :: x >= s.nextObjectId ==> LifeOf(s.trace, x) == [])
    requires k < |OwnIds(s.data)| && OwnIds(s.data)[k].None?
    requires r.Bind? || r.GetDataDevice?
    requires s'.trace == s.trace + [Sent(r)] && s'.nextObjectId == s.nextObjectId + 1 && s.nextObjectId > 0
    requires OwnIds(s'.data) == OwnIds(s.data)[k := Some(s.nextObjectId)]
    ensures Apart(s') && (forall x: Id :: x >= s'.nextObjectId ==> LifeOf(s'.trace, x) == [])
  {
    hide LifeOf, OwnIds;
    forall x: Id
      ensures LifeOf(s'.trace, x) == LifeOf(s.trace, x)
    {
      LifeOne(s.trace, Sent(r), x);
    }
  }

  lemma ObtainKeepsApart(s: State)
    requires Apart(s) && (forall x: Id :: x >= s.nextObjectId ==> LifeOf(s.trace, x) == [])
    requires s.data.clipboardDeviceId.None?
    requires s.data.seatId.Some? && s.data.clipboardManagerId.Some? ==>
               NextId(s.nextObjectId) == (s.nextObjectId, s.nextObjectId + 1)
    ensures Apart(ObtainDataDeviceIfReady(s))
  {
    hide LifeOf, Apart, NextId;
    if s.data.seatId.Some? && s.data.clipboardManagerId.Some? {
      var r := GetDataDevice(s.data.clipboardManagerId.value, s.nextObjectId, s.data.seatId.value);
      IntroduceKeepsApart(s, ObtainDataDeviceIfReady(s), r, 4);
    }
  }

  lemma BindGlobalKeepsApart(s: State, registry: Id, name: u32, interfaceName: Text, version: u32)
    requires Apart(s) && IdsInOrder(s) && Shape(s) && (forall x: Id :: x >= s.nextObjectId ==> LifeOf(s.trace, x) == [])
    requires |NewIds(BindGlobal(s, registry, name, interfaceName, version).trace)| <= MAX_IDS
    ensures Apart(BindGlobal(s, registry, name, interfaceName, version))
  {
    hide LifeOf, Apart, NextId, WlSeat, DataControlManager, NewIds;
    if BindGlobal(s, registry, name, interfaceName, version) != s {
      BindGlobalRoom(s, registry, name, interfaceName, version);
      var r := Clipboard.Bind(registry, name, interfaceName, version, s.nextObjectId);
      var s1 := Send(s, r).(nextObjectId := s.nextObjectId + 1);
      if interfaceName == WlSeat() && s.data.seatId.None? {
        var s2 := s1.(data := s.data.(seatId := Some(s.nextObjectId)));
        IntroduceKeepsApart(s, s2, r, 2);
        ObtainKeepsApart(s2);
      } else {
        var s2 := s1.(data := s.data.(clipboardManagerId := Some(s.nextObjectId)));
        IntroduceKeepsApart(s, s2, r, 3);
        ObtainKeepsApart(s2);
      }
    }
  }

  lemma PacketKeepsApart(order: ByteOrder, s: State, p: PacketData)
    requires Apart(s) && Lives(s) && Shape(s) && IdsInOrder(s) && OnPacket(order, Hearing(s, p), p).Some?
    requires |NewIds(OnPacket(order, Hearing(s, p), p).value.trace)| <= MAX_IDS
    ensures Apart(OnPacket(order, Hearing(s, p), p).value)
  {
    hide OnPacket, LifeOf, NewIds, BindGlobal, PlainTextMimeTypes, OneLife;
    var h := Hearing(s, p);
    HeardDrawsNothing(s, p);
    forall x: Id
      ensures LifeOf(h.trace, x) == LifeOf(s.trace, x)
    {
      LifeOne(s.trace, Heard(p), x);
    }
    var s' := OnPacket(order, h, p).value;
    var name, interfaceName, version, _, _ := PacketCases(order, h, p);
    if s' == BindGlobal(h, p.objectId, name, interfaceName, version) {
      BindGlobalKeepsApart(h, p.objectId, name, interfaceName, version);
    } else {
      assert OwnIds(s'.data) == OwnIds(s.data);
    }
  }

  lemma InputKeepsApart(order: ByteOrder, s: State, input: Input)
    requires Apart(s) && Lives(s) && Shape(s) && IdsInOrder(s) && Respond(order, s, input).Some?
    requires |NewIds(Respond(order, s, input).value.trace)| <= MAX_IDS
    ensures Apart(Respond(order, s, input).value)
  {
    hide Apart, Lives, Shape, IdsInOrder, NewIds, Copied, Cleared, OnPacket;
    match input
    case Copy(content) => CopyKeepsApart(s, content);
    case Clear => ClearKeepsApart(s);
    case Incoming(p) => PacketKeepsApart(order, s, p);
  }

  lemma {:induction false} EverApart(order: ByteOrder, inputs: seq<Input>)
    requires Run(order, inputs).Some? && |NewIds(Run(order, inputs).value.trace)| <= MAX_IDS
    ensures Apart(Run(order, inputs).value)
    decreases |inputs|
  {
    hide Respond, Shape, IdsInOrder, NewIds, Lives, Apart;
    if |inputs| == 0 {
      InitialApart();
    } else {
      var s := Run(order, inputs[..|inputs| - 1]).value;
      NewIdsGrow(order, s, inputs[|inputs| - 1]);
      EverApart(order, inputs[..|inputs| - 1]);
      EveryLife(order, inputs[..|inputs| - 1]);
      EveryState(order, inputs[..|inputs| - 1]);
      InputKeepsApart(order, s, inputs[|inputs| - 1]);
    }
  }

  lemma InitialApart()
    ensures Apart(INIT)
  {
    InitialLives();
    LifeAllOrNothing(INIT.trace, DISPLAY, false);
    LifeAllOrNothing(INIT.trace, REGISTRY, false);
  }

  /** Packets addressed to an ID that was ever a source are not taken for another object's. */
  lemma SourceIsNoOther(order: ByteOrder, inputs: seq<Input>, x: Id)
    requires Run(order, inputs).Some? && |NewIds(Run(order, inputs).value.trace)| <= MAX_IDS
    requires LifeOf(Run(order, inputs).value.trace, x) != []
    ensures Some(x) !in OwnIds(Run(order, inputs).value.data)
  {
    hide Run, NewIds, LifeOf, OwnIds;
    EverApart(order, inputs);
  }

  /** The packet is not an offer's event that fails to decode. */
  predicate Understood(order: ByteOrder, d: Data, p: PacketData) {
    d.incomingOfferId == Some(p.objectId) && p.opcode == OFFER_OPCODE ==> DecodeArgs(order, OFFER_OFFER, p).Ok?
  }

  /** A late packet for a source that was destroyed or cancelled changes nothing: no content, no
      request, no descriptor. If the compositor, against the rules for new IDs, reuses the source's ID
      for an offer, then the packet must at least decode as that offer's event. */
  lemma LatePacketsChangeNothing(order: ByteOrder, inputs: seq<Input>, p: PacketData)
    requires Run(order, inputs).Some? && |NewIds(Run(order, inputs).value.trace)| <= MAX_IDS
    requires LifeOf(Run(order, inputs).value.trace, p.objectId) != []
    requires Run(order, inputs).value.data.clipboardSourceId != Some(p.objectId)
    ensures Run(order, inputs + [Incoming(p)])
         == if Understood(order, Run(order, inputs).value.data, p) then Some(Hearing(Run(order, inputs).value, p))
            else None
  {
    hide NewIds, LifeOf, OnRegistry, OnSource, OnSeat, OnDevice, DecodeArgs;
    SourceIsNoOther(order, inputs, p.objectId);
    NotOwn(Run(order, inputs).value.data, p.objectId);
    assert (inputs + [Incoming(p)])[..|inputs|] == inputs;
  }

  lemma NotOwn(d: Data, x: Id)
    requires Some(x) !in OwnIds(d)
    ensures x != DISPLAY && Some(x) != d.registryId && Some(x) != d.seatId
    ensures Some(x) != d.clipboardManagerId && Some(x) != d.clipboardDeviceId
  {
    var ids := OwnIds(d);
    assert ids[0] in ids && ids[1] in ids && ids[2] in ids && ids[3] in ids && ids[4] in ids;
  }

  // ----- when a copy is published -----

  /** After a copy there is a live source exactly if there was one before or the data device is known;
      otherwise the content is only stored. */
  lemma CopyPublishesIff(order: ByteOrder, inputs: seq<Input>, content: Text)
    requires Run(order, inputs).Some? && |NewIds(Run(order, inputs).value.trace)| <= MAX_IDS
    ensures var s := Run(order, inputs).value;
            var s' := Copied(s, content);
            && s'.data.clipboardData == Some(content)
            && (s'.data.clipboardSourceId.Some? <==> s.data.clipboardSourceId.Some? || s.data.clipboardDeviceId.Some?)
  {
    hide Publication, NewIds, NextId;
    EveryState(order, inputs);
  }

  /** No packet ever publishes: content that was copied before the data device was known is offered
      only by a later copy. */
  lemma PacketsNeverPublish(order: ByteOrder, s: State, p: PacketData)
    requires Clipboard.Dispatched(order, s, p).Some?
    ensures var s' := Clipboard.Dispatched(order, s, p).value;
            s'.data.clipboardSourceId == s.data.clipboardSourceId || s'.data.clipboardSourceId == None
  {
    hide OnPacket, PlainTextMimeTypes, WlSeat, DataControlManager, NextId;
    var _, _, _, _, _ := PacketCases(order, Hearing(s, p), p);
  }

  /** Content reaches a descriptor only on a `send` event of the live source, and it is the cell's. */
  lemma WritesOnlyWhenAsked(order: ByteOrder, inputs: seq<Input>, input: Input)
    requires Run(order, inputs).Some? && Run(order, inputs + [input]).Some?
    ensures var s := Run(order, inputs).value;
            var s' := Run(order, inputs + [input]).value;
            && s.pipes <= s'.pipes
            && (forall i :: |s.pipes| <= i < |s'.pipes| && s'.pipes[i].WriteTo? ==>
                  && input.Incoming? && s.data.clipboardSourceId == Some(input.packet.objectId)
                  && input.packet.opcode == SEND_OPCODE && Some(s'.pipes[i].content) == CellOf(inputs))
  {
    hide OnPacket, PlainTextMimeTypes, WlSeat, DataControlManager, NextId, Publication;
    assert (inputs + [input])[..|inputs|] == inputs;
    EveryCell(order, inputs);
    if input.Incoming? {
      var _, _, _, _, _ := PacketCases(order, Hearing(Run(order, inputs).value, input.packet), input.packet);
    }
  }

  // ----- which received descriptors are closed -----

  /** The descriptors closed, in order. */
  function Closed(pipes: seq<PipeAction>): seq<Fd> {
    if |pipes| == 0 then []
    else
      var last := pipes[|pipes| - 1];
      Closed(pipes[..|pipes| - 1]) + if last.CloseFd? then [last.fd] else []
  }

  lemma ClosedOne(pipes: seq<PipeAction>, action: PipeAction)
    ensures Closed(pipes + [action]) == Closed(pipes) + if action.CloseFd? then [action.fd] else []
  {
    assert (pipes + [action])[..|pipes|] == pipes;
  }

  lemma ServeCloses(s: State, mimeType: Text, fd: Fd)
    ensures Closed(Serve(s, mimeType, fd).pipes) == Closed(s.pipes) + [fd]
  {
    hide PlainTextMimeTypes, Closed;
    var pipes := Serve(s, mimeType, fd).pipes;
    if mimeType in PlainTextMimeTypes() && s.data.clipboardData.Some? {
      var write := WriteTo(fd, s.data.clipboardData.value);
      assert pipes == s.pipes + [write] + [CloseFd(fd)];
      ClosedOne(s.pipes, write);
      ClosedOne(s.pipes + [write], CloseFd(fd));
    } else {
      assert pipes == s.pipes + [CloseFd(fd)];
      ClosedOne(s.pipes, CloseFd(fd));
    }
  }

  /** A request for content brings exactly the one descriptor that it names. */
  lemma AskingBringsOneFd(order: ByteOrder, p: PacketData, mimeType: Text, fd: Fd)
    requires Asks(order, p, mimeType, fd)
    ensures p.fds == [fd]
  {
    hide Decode, EncodeAll, AllEncodable, MaskAll, Agrees;
    var vs := [StrV(mimeType), FdV(fd)];
    DecodeIff(order, ReadsOf(SOURCE_SEND.args), p.payload, p.fds, vs);
    assert AllFds(vs) == [fd] by {
      assert vs[1..] == [FdV(fd)] && vs[1..][1..] == [];
      assert AllFds(vs[1..][1..]) == [] && AllFds(vs[1..]) == [fd];
    }
  }

  /** The descriptors brought by `send` events for the source that is live when they arrive. */
  function Answered(order: ByteOrder, inputs: seq<Input>): seq<Fd> {
    if |inputs| == 0 then []
    else
      var before := Run(order, inputs[..|inputs| - 1]);
      var input := inputs[|inputs| - 1];
      Answered(order, inputs[..|inputs| - 1])
      + if && before.Some? && input.Incoming?
           && before.value.data.clipboardSourceId == Some(input.packet.objectId) && input.packet.opcode == SEND_OPCODE
        then input.packet.fds else []
  }

  /** In every run, of the descriptors that packets bring exactly those that are answered are closed,
      each once and in order. All others stay open: those of any other packet, and those of a `send`
      that arrives after its source was destroyed or cancelled. */
  lemma {:induction false} ClosesWhatItAnswers(order: ByteOrder, inputs: seq<Input>)
    requires Run(order, inputs).Some? && |NewIds(Run(order, inputs).value.trace)| <= MAX_IDS
    ensures Closed(Run(order, inputs).value.pipes) == Answered(order, inputs)
    decreases |inputs|
  {
    hide Respond, NewIds, Closed;
    if |inputs| == 0 {
      NothingClosed();
    } else {
      var front, input := inputs[..|inputs| - 1], inputs[|inputs| - 1];
      NewIdsGrow(order, Run(order, front).value, input);
      ClosesWhatItAnswers(order, front);
      InputCloses(order, front, input);
    }
  }

  lemma NothingClosed()
    ensures Closed(INIT.pipes) == []
  {
  }

  lemma InputCloses(order: ByteOrder, inputs: seq<Input>, input: Input)
    requires Run(order, inputs).Some? && |NewIds(Run(order, inputs).value.trace)| <= MAX_IDS
    requires Respond(order, Run(order, inputs).value, input).Some?
    ensures var s := Run(order, inputs).value;
            var s' := Respond(order, s, input).value;
            Closed(s'.pipes) == Closed(s.pipes)
              + if && input.Incoming? && s.data.clipboardSourceId == Some(input.packet.objectId)
                   && input.packet.opcode == SEND_OPCODE
                then input.packet.fds else []
  {
    hide Run, NewIds, Closed, OnPacket, PlainTextMimeTypes, WlSeat, DataControlManager, NextId, Publication,
      DecodeArgs, Serve, Announces;
    var s := Run(order, inputs).value;
    if input.Incoming? {
      var p := input.packet;
      LiveSourceIsReached(order, inputs, p);
      var _, _, _, mimeType, fd := PacketCases(order, Hearing(s, p), p);
      if ForSource(s, p) && Asks(order, p, mimeType, fd) {
        AskingBringsOneFd(order, p, mimeType, fd);
        ServeCloses(Hearing(s, p), mimeType, fd);
      }
    }
  }

  /** Packets for the live source are not taken for the display's or the registry's. */
  lemma LiveSourceIsReached(order: ByteOrder, inputs: seq<Input>, p: PacketData)
    requires Run(order, inputs).Some? && |NewIds(Run(order, inputs).value.trace)| <= MAX_IDS
    ensures Run(order, inputs).value.data.clipboardSourceId == Some(p.objectId) ==>
              ForSource(Run(order, inputs).value, p)
  {
    hide Run, NewIds, OwnIds, LifeOf, Publication;
    var s := Run(order, inputs).value;
    if s.data.clipboardSourceId == Some(p.objectId) {
      EveryLife(order, inputs);
      assert OneLife(s, p.objectId);
      PublicationNotEmpty(s.data.clipboardManagerId.value, s.data.clipboardDeviceId.value, p.objectId);
      SourceIsNoOther(order, inputs, p.objectId);
      NotOwn(s.data, p.objectId);
    }
  }

  // ----- what other events do -----

  /** The packet introduces an offer. */
  predicate Introduces(order: ByteOrder, p: PacketData, offer: Id) {
    p.opcode == DATA_OFFER_OPCODE && DecodeArgs(order, DEVICE_DATA_OFFER, p) == Ok([NewIdV(offer)])
  }

  /** A `data_offer` of the device is noted, and nothing else changes. */
  lemma OfferIsNoted(order: ByteOrder, inputs: seq<Input>, p: PacketData, offer: Id)
    requires Run(order, inputs).Some? && |NewIds(Run(order, inputs).value.trace)| <= MAX_IDS
    requires Run(order, inputs).value.data.clipboardDeviceId == Some(p.objectId) && Introduces(order, p, offer)
    ensures var s := Run(order, inputs).value;
            Run(order, inputs + [Incoming(p)])
            == Some(s.(trace := s.trace + [Heard(p)], data := s.data.(incomingOfferId := Some(offer))))
  {
    hide Run, NewIds, OwnIds, LifeOf, Publication, DecodeArgs;
    var s := Run(order, inputs).value;
    EverApart(order, inputs);
    DeviceIsNoOther(s, p.objectId);
    if s.data.clipboardSourceId == Some(p.objectId) {
      EveryLife(order, inputs);
      assert OneLife(s, p.objectId);
      PublicationNotEmpty(s.data.clipboardManagerId.value, s.data.clipboardDeviceId.value, p.objectId);
    }
    RunOne(order, inputs, Incoming(p));
  }

  lemma DeviceIsNoOther(s: State, device: Id)
    requires Apart(s) && s.data.clipboardDeviceId == Some(device)
    ensures device != DISPLAY && s.data.registryId != Some(device) && s.data.seatId != Some(device)
    ensures s.data.clipboardManagerId != Some(device) && LifeOf(s.trace, device) == []
  {
    hide LifeOf;
    var ids := OwnIds(s.data);
    assert ids[4] == Some(device) && ids[0] != ids[4] && ids[1] != ids[4] && ids[2] != ids[4] && ids[3] != ids[4];
  }

  /** No other packet changes which offer is noted. */
  lemma OnlyOffersAreNoted(order: ByteOrder, inputs: seq<Input>, p: PacketData)
    requires Run(order, inputs).Some? && Run(order, inputs + [Incoming(p)]).Some?
    requires !(Run(order, inputs).value.data.clipboardDeviceId == Some(p.objectId) && p.opcode == DATA_OFFER_OPCODE)
    ensures Run(order, inputs + [Incoming(p)]).value.data.incomingOfferId
         == Run(order, inputs).value.data.incomingOfferId
  {
    hide Run, DecodeArgs, PlainTextMimeTypes, WlSeat, DataControlManager, NextId;
    RunOne(order, inputs, Incoming(p));
  }

  /** When the source is cancelled, it and the content are forgotten, and nothing else changes. */
  lemma CancelForgets(order: ByteOrder, inputs: seq<Input>, p: PacketData)
    requires Run(order, inputs).Some? && |NewIds(Run(order, inputs).value.trace)| <= MAX_IDS
    requires Run(order, inputs).value.data.clipboardSourceId == Some(p.objectId) && p.opcode == CANCELLED_OPCODE
    ensures var s := Run(order, inputs).value;
            Run(order, inputs + [Incoming(p)])
            == Some(s.(trace := s.trace + [Heard(p)],
                       data := s.data.(clipboardData := None, clipboardSourceId := None)))
  {
    hide Run, NewIds, OnRegistry, OnSeat, OnDevice;
    LiveSourceIsReached(order, inputs, p);
    RunOne(order, inputs, Incoming(p));
  }
}
