/** Concrete runs: a start-up, and the run that breaks the protocol; and a packet that underflows. */
module ClipboardWitness {
  import opened Numbers
  import opened Outcomes
  import opened Packets
  import opened Codec
  import opened Generator
  import opened GeneratedCode
  import opened FormsAgree
  import opened Framing
  import opened Clipboard
  import opened ClipboardRuns
  import opened ClipboardProtocol
  import opened ClipboardOwning

  /** The compositor announces a global. */
  function GlobalEvent(order: ByteOrder, name: u32, interfaceName: Text, version: u32): PacketData
    requires EncodableStr(interfaceName)
  {
    var vs := [UintV(name), StrV(interfaceName), UintV(version)];
    PacketData(REGISTRY, GLOBAL_OPCODE, EncodeAll(order, vs), AllFds(vs))
  }

  lemma GlobalEventDecodes(order: ByteOrder, name: u32, interfaceName: Text, version: u32)
    requires EncodableStr(interfaceName)
    ensures DecodeArgs(order, REGISTRY_GLOBAL, GlobalEvent(order, name, interfaceName, version))
         == Ok([UintV(name), StrV(interfaceName), UintV(version)])
  {
    hide EncodeAll, Decode, EncodableStr;
    var vs := [UintV(name), StrV(interfaceName), UintV(version)];
    TypedForReads(REGISTRY_GLOBAL.args, vs);
    RoundTrip(order, ReadsOf(REGISTRY_GLOBAL.args), vs);
  }

  lemma GlobalHeard(order: ByteOrder, s: State, name: u32, interfaceName: Text, version: u32)
    requires EncodableStr(interfaceName) && s.data.registryId == Some(REGISTRY)
    ensures var p := GlobalEvent(order, name, interfaceName, version);
            Respond(order, s, Incoming(p)) == Some(BindGlobal(Hearing(s, p), REGISTRY, name, interfaceName, version))
  {
    hide EncodeAll, DecodeArgs, EncodableStr, BindGlobal;
    GlobalEventDecodes(order, name, interfaceName, version);
  }

  function Finished(device: Id): PacketData {
    PacketData(device, FINISHED_OPCODE, [], [])
  }

  lemma FinishedDecodes(order: ByteOrder, device: Id)
    ensures DecodeArgs(order, DEVICE_FINISHED, Finished(device)) == Ok([])
  {
  }

  /** The first two events of a session. */
  function StartUp(order: ByteOrder): seq<Input> {
    KnownStringsEncodable(WlSeat());
    KnownStringsEncodable(DataControlManager());
    [Incoming(GlobalEvent(order, 1, WlSeat(), 10)), Incoming(GlobalEvent(order, 2, DataControlManager(), 1))]
  }

  /** After the start-up the objects are the registry 2, the seat 3, the manager 4 and the device 5. */
  lemma StartUpRun(order: ByteOrder)
    ensures Run(order, StartUp(order)).Some?
    ensures var s := Run(order, StartUp(order)).value;
            && s.data == Data(Some(2), Some(3), Some(4), Some(5), None, None, None)
            && s.nextObjectId == 6
            && |NewIds(s.trace)| == 4 && DeviceFate(s.trace) == (Some(5), false)
  {
    hide EncodeAll, EncodableStr, WlSeat, DataControlManager, GlobalEvent, NewIds, DeviceFate, Respond, BindGlobal, Run;
    KnownStringsEncodable(WlSeat());
    KnownStringsEncodable(DataControlManager());
    var inputs := StartUp(order);
    assert inputs == [inputs[0]] + [inputs[1]] && [inputs[0]] == [] + [inputs[0]];
    RunOne(order, [], inputs[0]);
    RunOne(order, [inputs[0]], inputs[1]);
    NothingYet(order);
    GlobalHeard(order, INIT, 1, WlSeat(), 10);
    var s1 := SeatStep(inputs[0].packet);
    GlobalHeard(order, s1, 2, DataControlManager(), 1);
    ManagerStep(s1, inputs[1].packet);
  }

  lemma NothingYet(order: ByteOrder)
    ensures Run(order, []) == Some(INIT)
  {
  }

  lemma SeatStep(p: PacketData) returns (s: State)
    ensures s == BindGlobal(Hearing(INIT, p), REGISTRY, 1, WlSeat(), 10)
    ensures s.data == INIT.data.(seatId := Some(3)) && s.nextObjectId == 4 && |NewIds(s.trace)| == 2
  {
    hide WlSeat, NewIds;
    s := BindGlobal(Hearing(INIT, p), REGISTRY, 1, WlSeat(), 10);
    var bind := Sent(Clipboard.Bind(2, 1, WlSeat(), 10, 3));
    assert s.trace == INIT.trace + [Heard(p)] + [bind];
    InitialIds();
    NewIdsOne(INIT.trace, Heard(p));
    NewIdsOne(INIT.trace + [Heard(p)], bind);
  }

  lemma ManagerStep(s: State, p: PacketData)
    requires s.data == INIT.data.(seatId := Some(3)) && s.nextObjectId == 4 && |NewIds(s.trace)| == 2
    ensures var s' := BindGlobal(Hearing(s, p), REGISTRY, 2, DataControlManager(), 1);
            && s'.data == Data(Some(2), Some(3), Some(4), Some(5), None, None, None) && s'.nextObjectId == 6
            && |NewIds(s'.trace)| == 4 && DeviceFate(s'.trace) == (Some(5), false)
  {
    hide WlSeat, DataControlManager, NewIds, DeviceFate;
    SeatIsNotManager();
    var bind, get := Sent(Clipboard.Bind(2, 2, DataControlManager(), 1, 4)), Sent(GetDataDevice(4, 5, 3));
    var t := s.trace + [Heard(p)];
    assert BindGlobal(Hearing(s, p), REGISTRY, 2, DataControlManager(), 1).trace == t + [bind] + [get];
    NewIdsOne(s.trace, Heard(p));
    NewIdsOne(t, bind);
    NewIdsOne(t + [bind], get);
    FateOne(t + [bind], get);
  }

  /** The compositor finishes the data device, then something is copied: the program selects a source
      on the finished device. */
  lemma CopyAfterFinishedBreaksProtocol(order: ByteOrder, content: Text)
    ensures var inputs := StartUp(order) + [Incoming(Finished(5)), Copy(content)];
            Run(order, inputs).Some? && Verdict(order, Run(order, inputs).value.trace).None?
  {
    hide NewIds, DeviceFate, Verdict, StartUp, Copied, Publication;
    var early := StartUp(order);
    var inputs := early + [Incoming(Finished(5)), Copy(content)];
    assert inputs[..|inputs| - 1] == early + [Incoming(Finished(5))];
    assert inputs[..|inputs| - 1][..|early|] == early;
    StartUpRun(order);
    var s := Run(order, early).value;
    FinishedHeard(order, s);
    var s' := Hearing(s, Finished(5));
    assert Run(order, inputs[..|inputs| - 1]) == Some(s');
    FateOne(s.trace, Heard(Finished(5)));
    NewIdsOne(s.trace, Heard(Finished(5)));
    CopyDrawsOne(s', content);
    assert !NoCopyAfterFinished(order, inputs);
    ObeysProtocolIff(order, inputs);
  }

  lemma FinishedHeard(order: ByteOrder, s: State)
    requires s.data == Data(Some(2), Some(3), Some(4), Some(5), None, None, None)
    ensures Respond(order, s, Incoming(Finished(5))) == Some(Hearing(s, Finished(5)))
  {
    hide DecodeArgs;
    FinishedDecodes(order, 5);
  }

  lemma CopyDrawsOne(s: State, content: Text)
    requires |NewIds(s.trace)| == 4
    ensures |NewIds(Copied(s, content).trace)| <= 5
  {
    hide NewIds, Publication, NextId;
    if Publishes(s) {
      var m, d, id := s.data.clipboardManagerId.value, s.data.clipboardDeviceId.value, NextId(s.nextObjectId).0;
      NewIdsConcat(s.trace, Publication(m, d, id));
      NewIdsOfPublication(m, d, id);
    }
  }

  /** A `send` event whose MIME type has wire length 0. */
  function EmptyMimeType(source: Id, fd: Fd): PacketData {
    PacketData(source, SEND_OPCODE, [0, 0, 0, 0], [fd])
  }

  /** It makes the generated decoder compute 0 - 1. */
  lemma EmptyMimeTypeUnderflows(order: ByteOrder, source: Id, fd: Fd)
    ensures var p := EmptyMimeType(source, fd);
            StructFrom(order, StructFor(Event, SEND_OPCODE, SOURCE_SEND), p) == Err(StringLengthUnderflow)
  {
    hide Remaining;
    var p := EmptyMimeType(source, fd);
    BeginsNothing(order, p.payload, p.fds, Cursor(0, 0));
    assert UnderflowAfter(order, ReadsOf(SOURCE_SEND.args), [], p.payload, p.fds, Cursor(0, 0));
    hide UnderflowAfter, StructFrom;
    StructUnderflowIff(order, Event, SEND_OPCODE, SOURCE_SEND, p);
  }
}
