/** Any number of callers sending and receiving over one connection: the send lock, the receive lock
    and the loops of whale-land/src/connection.rs:48-122 as a state machine whose steps are single
    socket calls, taken in any order the scheduler likes. The receiving callers belong to the peer. */
module Interleaving {
  import opened Numbers
  import opened Outcomes
  import opened Packets
  import opened Framing

  type CallerId = nat

  /** The caller inside the send lock, and how much of its frame is written. */
  datatype Sender = Sender(caller: CallerId, packet: PacketData, sent: nat)

  /** The caller inside the receive lock: filling the header, or filling the payload. */
  datatype Receiver =
    | ReadingHeader(caller: CallerId, got: seq<byte>, fds: seq<Fd>)
    | ReadingPayload(caller: CallerId, objectId: ObjectId, opcode: u16, size: nat, got: seq<byte>, fds: seq<Fd>)
    | Failed(caller: CallerId, error: Error)

  datatype State = State(
    waitingToSend: map<CallerId, PacketData>,
    sender: Option<Sender>,
    waitingToReceive: set<CallerId>,
    receiver: Option<Receiver>,
    inFlight: seq<Cell>,               // written and not yet read
    written: seq<Cell>,                // history: everything ever written
    started: seq<PacketData>,          // history: packets in the order the send lock was taken
    delivered: seq<PacketData>)        // history: results of completed receives

  const INIT := State(map[], None, {}, None, [], [], [], [])

  datatype Step =
    | CallSend(caller: CallerId, packet: PacketData)
    | LockSend(caller: CallerId)
    | Write(count: nat)
    | UnlockSend
    | CallReceive(caller: CallerId)
    | LockReceive(caller: CallerId)
    | ReadHeader(count: nat)
    | ParseHeader
    | ReadPayload(count: nat)
    | UnlockReceive

  /** When a caller, and the socket, can take a step. */
  predicate Enabled(order: ByteOrder, s: State, step: Step) {
    match step
    case CallSend(t, p) =>
      // a packet that does not serialize makes `send_packet` return before it takes the lock
      t !in s.waitingToSend && Serialize(order, p).Ok?
    case LockSend(t) => s.sender == None && t in s.waitingToSend
    case Write(n) =>
      && s.sender.Some? && Serialize(order, s.sender.value.packet).Ok?
      && n > 0 && s.sender.value.sent + n <= |Frame(order, s.sender.value.packet)|
    case UnlockSend =>
      && s.sender.Some? && Serialize(order, s.sender.value.packet).Ok?
      && s.sender.value.sent == |Frame(order, s.sender.value.packet)|
    case CallReceive(t) => t !in s.waitingToReceive
    case LockReceive(t) => s.receiver == None && t in s.waitingToReceive
    case ReadHeader(n) =>
      && s.receiver.Some? && s.receiver.value.ReadingHeader?
      && 0 < n <= |s.inFlight| && |s.receiver.value.got| + n <= 8
    case ParseHeader => s.receiver.Some? && s.receiver.value.ReadingHeader? && |s.receiver.value.got| == 8
    case ReadPayload(n) =>
      && s.receiver.Some? && s.receiver.value.ReadingPayload?
      && 0 < n <= |s.inFlight| && 8 + |s.receiver.value.got| + n <= s.receiver.value.size
    case UnlockReceive =>
      && s.receiver.Some? && s.receiver.value.ReadingPayload?
      && 8 + |s.receiver.value.got| == s.receiver.value.size
  }

  /** The cells one socket write puts on the stream: the first write carries the descriptors. */
  function WrittenBy(order: ByteOrder, sender: Sender, n: nat): seq<Cell>
    requires Serialize(order, sender.packet).Ok? && sender.sent + n <= |Serialize(order, sender.packet).value|
  {
    var data := Serialize(order, sender.packet).value[sender.sent..sender.sent + n];
    if sender.sent == 0 then Chunk(data, sender.packet.fds) else Chunk(data, [])
  }

  function Do(order: ByteOrder, s: State, step: Step): State
    requires Enabled(order, s, step)
  {
    match step
    case CallSend(t, p) => s.(waitingToSend := s.waitingToSend[t := p])
    case LockSend(t) =>
      s.(sender := Some(Sender(t, s.waitingToSend[t], 0)), waitingToSend := s.waitingToSend - {t},
         started := s.started + [s.waitingToSend[t]])
    case Write(n) =>
      var cells := WrittenBy(order, s.sender.value, n);
      s.(sender := Some(s.sender.value.(sent := s.sender.value.sent + n)),
         inFlight := s.inFlight + cells, written := s.written + cells)
    case UnlockSend => s.(sender := None)
    case CallReceive(t) => s.(waitingToReceive := s.waitingToReceive + {t})
    case LockReceive(t) =>
      s.(receiver := Some(ReadingHeader(t, [], [])), waitingToReceive := s.waitingToReceive - {t})
    case ReadHeader(n) =>
      var r := s.receiver.value;
      // only the first read collects descriptors
      var fds := if |r.got| == 0 then Riding(s.inFlight[..n]) else r.fds;
      s.(receiver := Some(ReadingHeader(r.caller, r.got + BytesOf(s.inFlight[..n]), fds)), inFlight := s.inFlight[n..])
    case ParseHeader =>
      var r := s.receiver.value;
      match HeaderError(order, r.got) {
        case Some(e) => s.(receiver := Some(Failed(r.caller, e)))
        case None =>
          s.(receiver := Some(ReadingPayload(r.caller, HeaderId(order, r.got), HeaderOpcode(order, r.got),
                                             HeaderSize(order, r.got), [], r.fds)))
      }
    case ReadPayload(n) =>
      var r := s.receiver.value;
      s.(receiver := Some(r.(got := r.got + BytesOf(s.inFlight[..n]))), inFlight := s.inFlight[n..])
    case UnlockReceive =>
      var r := s.receiver.value;
      s.(receiver := None, delivered := s.delivered + [PacketData(r.objectId, r.opcode, r.got, r.fds)])
  }

  /** The state after the steps, if each was enabled when it was taken. */
  function RunFrom(order: ByteOrder, start: State, steps: seq<Step>): Option<State> {
    if |steps| == 0 then Some(start)
    else
      match RunFrom(order, start, steps[..|steps| - 1])
      case None => None
      case Some(s) =>
        var step := steps[|steps| - 1];
        if Enabled(order, s, step) then Some(Do(order, s, step)) else None
  }

  /** A run of the whole system. */
  function Run(order: ByteOrder, steps: seq<Step>): Option<State> {
    RunFrom(order, INIT, steps)
  }

  // ----- the invariant -----

  /** What the sender still has to write. */
  function Unsent(order: ByteOrder, s: State): seq<Cell>
    requires s.sender.Some? ==>
               && Serialize(order, s.sender.value.packet).Ok?
               && s.sender.value.sent <= |Frame(order, s.sender.value.packet)|
  {
    if s.sender.None? then [] else Frame(order, s.sender.value.packet)[s.sender.value.sent..]
  }

  /** How far into the current frame the receiver is. */
  function Taken(s: State): nat {
    match s.receiver
    case None => 0
    case Some(ReadingHeader(_, got, _)) => |got|
    case Some(ReadingPayload(_, _, _, _, got, _)) => 8 + |got|
    case Some(Failed(_, _)) => 0
  }

  predicate SendSide(order: ByteOrder, s: State) {
    && (forall t :: t in s.waitingToSend ==> Serialize(order, s.waitingToSend[t]).Ok?)
    && AllFit(order, s.started)
    && (s.sender.Some? ==>
          && |s.started| > 0 && s.started[|s.started| - 1] == s.sender.value.packet
          && Serialize(order, s.sender.value.packet).Ok?
          && s.sender.value.sent <= |Frame(order, s.sender.value.packet)|)
    && s.written + Unsent(order, s) == Stream(order, s.started)
  }

  /** The receiver's buffers hold the beginning of p's frame and p's descriptors. */
  predicate Holds(order: ByteOrder, r: Receiver, p: PacketData)
    requires Serialize(order, p).Ok?
  {
    var bytes := Serialize(order, p).value;
    match r
    case ReadingHeader(_, got, fds) =>
      |got| <= 8 <= |bytes| && got == bytes[..|got|] && (|got| > 0 ==> fds == p.fds)
    case ReadingPayload(_, objectId, opcode, size, got, fds) =>
      && objectId == p.objectId && opcode == p.opcode % 0x100 && size == |bytes| && fds == p.fds
      && 8 + |got| <= |bytes| && got == bytes[8..8 + |got|]
    case Failed(_, _) => false
  }

  predicate ReceiveSide(order: ByteOrder, s: State)
    requires SendSide(order, s)
  {
    var d := |s.delivered|;
    && d <= |s.started| && s.delivered == MaskedAll(s.started[..d])
    && (s.receiver.Some? ==> !s.receiver.value.Failed?)
    && (Taken(s) > 0 ==> d < |s.started| && Holds(order, s.receiver.value, s.started[d]))
    && Taken(s) <= |Stream(order, s.started[d..])|
    && Stream(order, s.started[d..])[Taken(s)..] == s.inFlight + Unsent(order, s)
  }

  predicate Invariant(order: ByteOrder, s: State) {
    SendSide(order, s) && ReceiveSide(order, s)
  }

  // ----- streams grow and shrink by frames -----

  lemma {:induction false} StreamAppend(order: ByteOrder, ps: seq<PacketData>, p: PacketData)
    requires AllFit(order, ps) && Serialize(order, p).Ok?
    ensures AllFit(order, ps + [p]) && Stream(order, ps + [p]) == Stream(order, ps) + Frame(order, p)
    decreases |ps|
  {
    hide Frame, Serialize;
    if |ps| == 0 {
      assert (ps + [p])[1..] == [];
    } else {
      assert (ps + [p])[1..] == ps[1..] + [p];
      StreamAppend(order, ps[1..], p);
    }
  }

  /** The stream of the packets from d on starts with the frame of packet d. */
  lemma StreamHead(order: ByteOrder, ps: seq<PacketData>, d: nat)
    requires AllFit(order, ps) && d < |ps|
    ensures AllFit(order, ps[d..]) && AllFit(order, ps[d + 1..])
    ensures Stream(order, ps[d..]) == Frame(order, ps[d]) + Stream(order, ps[d + 1..])
    ensures |Frame(order, ps[d])| == 8 + |ps[d].payload|
  {
    FrameLength(order, ps[d]);
    hide Frame;
    assert ps[d..][1..] == ps[d + 1..];
  }

  lemma FrameLength(order: ByteOrder, p: PacketData)
    requires Serialize(order, p).Ok?
    ensures |Frame(order, p)| == 8 + |p.payload| == |Serialize(order, p).value|
  {
  }

  // ----- every step keeps the invariant -----

  lemma KeepsLockSend(order: ByteOrder, s: State, t: CallerId)
    requires Invariant(order, s) && Enabled(order, s, LockSend(t))
    ensures Invariant(order, Do(order, s, LockSend(t)))
  {
    hide Serialize, Frame, Stream, Holds;
    var p, s' := s.waitingToSend[t], Do(order, s, LockSend(t));
    var d := |s.delivered|;
    StreamAppend(order, s.started, p);
    assert Frame(order, p)[0..] == Frame(order, p);
    assert s.written + [] == s.written;
    assert SendSide(order, s');
    assert s'.started[d..] == s.started[d..] + [p] && s'.started[..d] == s.started[..d];
    StreamAppend(order, s.started[d..], p);
    assert s.inFlight + [] == s.inFlight;
  }

  lemma WriteMoves(order: ByteOrder, sender: Sender, n: nat)
    requires Serialize(order, sender.packet).Ok? && sender.sent + n <= |Frame(order, sender.packet)|
    ensures WrittenBy(order, sender, n) + Frame(order, sender.packet)[sender.sent + n..]
         == Frame(order, sender.packet)[sender.sent..]
  {
    hide Serialize;
    ChunkSlices(Serialize(order, sender.packet).value, sender.packet.fds, sender.sent, sender.sent + n);
  }

  lemma KeepsWrite(order: ByteOrder, s: State, n: nat)
    requires Invariant(order, s) && Enabled(order, s, Write(n))
    ensures Invariant(order, Do(order, s, Write(n)))
  {
    hide Serialize, Stream, Holds, WrittenBy, Frame;
    FrameLength(order, s.sender.value.packet);
    var s' := Do(order, s, Write(n));
    var cells := WrittenBy(order, s.sender.value, n);
    WriteMoves(order, s.sender.value, n);
    assert cells + Unsent(order, s') == Unsent(order, s);
    assert s.written + cells + Unsent(order, s') == s.written + (cells + Unsent(order, s'));
    assert s.inFlight + cells + Unsent(order, s') == s.inFlight + (cells + Unsent(order, s'));
  }

  lemma KeepsUnlockSend(order: ByteOrder, s: State)
    requires Invariant(order, s) && Enabled(order, s, UnlockSend)
    ensures Invariant(order, Do(order, s, UnlockSend))
  {
    hide Serialize, Stream, Holds, Frame;
    assert Unsent(order, s) == [];
  }

  /** A read inside the current frame takes that frame's next cells. */
  lemma ReadTakes(order: ByteOrder, s: State, n: nat)
    requires Invariant(order, s) && 0 < n <= |s.inFlight|
    ensures |s.delivered| < |s.started|
    ensures var frame := Frame(order, s.started[|s.delivered|]);
            Taken(s) + n <= |frame| ==> s.inFlight[..n] == frame[Taken(s)..Taken(s) + n]
    ensures Stream(order, s.started[|s.delivered|..])[Taken(s) + n..] == s.inFlight[n..] + Unsent(order, s)
  {
    hide Serialize, Frame, Holds, Unsent;
    var d, k := |s.delivered|, Taken(s);
    var stream := Stream(order, s.started[d..]);
    var rest := s.inFlight + Unsent(order, s);
    assert stream[k..] == rest;
    assert stream[k..][..n] == s.inFlight[..n] by {
      assert rest[..n] == s.inFlight[..n];
    }
    assert stream[k..][n..] == stream[k + n..];
    assert rest[n..] == s.inFlight[n..] + Unsent(order, s);
    assert d == |s.started| ==> |stream| == 0;
    StreamHead(order, s.started, d);
    var frame := Frame(order, s.started[d]);
    if k + n <= |frame| {
      assert stream[k..][..n] == stream[k..k + n];
      assert stream[k..k + n] == frame[k..k + n];
    }
  }

  lemma KeepsReadHeader(order: ByteOrder, s: State, n: nat)
    requires Invariant(order, s) && Enabled(order, s, ReadHeader(n))
    ensures Invariant(order, Do(order, s, ReadHeader(n)))
  {
    hide Serialize, Stream, Frame, Unsent, Riding, SendSide, AllFit;
    var s' := Do(order, s, ReadHeader(n));
    var k := Taken(s);
    SendSideOf(order, s);
    ReadTakes(order, s, n);
    var p := s.started[|s.delivered|];
    FrameLength(order, p);
    FrameSlice(order, p, k, k + n);
    JoinSlices(Serialize(order, p).value, 0, k, k + n);
    UnsentDepends(order, s, s');
    ReadKeepsSendSide(order, s, s');
    StreamLongEnough(order, s, n);
  }

  /** A read leaves the sending side alone. */
  lemma ReadKeepsSendSide(order: ByteOrder, s: State, s': State)
    requires SendSide(order, s)
    requires s'.waitingToSend == s.waitingToSend && s'.started == s.started
    requires s'.sender == s.sender && s'.written == s.written
    ensures SendSide(order, s')
  {
    hide Serialize, Stream, Frame;
    UnsentDepends(order, s, s');
  }

  lemma SendSideOf(order: ByteOrder, s: State)
    requires SendSide(order, s)
    ensures AllFit(order, s.started)
    ensures forall i :: 0 <= i < |s.started| ==> Serialize(order, s.started[i]).Ok?
  {
    hide Serialize;
  }

  lemma JoinSlices(bytes: seq<byte>, i: nat, j: nat, k: nat)
    requires i <= j <= k <= |bytes|
    ensures bytes[i..j] + bytes[j..k] == bytes[i..k]
    ensures i == 0 ==> bytes[i..j] == bytes[..j] && bytes[i..k] == bytes[..k]
  {
  }

  /** Bytes and descriptors of a stretch of a frame. */
  lemma FrameSlice(order: ByteOrder, p: PacketData, m: nat, n: nat)
    requires Serialize(order, p).Ok? && m <= n <= |Frame(order, p)|
    ensures n <= |Serialize(order, p).value|
    ensures BytesOf(Frame(order, p)[m..n]) == Serialize(order, p).value[m..n]
    ensures m == 0 < n ==> Riding(Frame(order, p)[m..n]) == p.fds
  {
    hide Serialize;
    ChunkSlices(Serialize(order, p).value, p.fds, m, n);
    if m == 0 < n {
      RidingOnChunk(Serialize(order, p).value, p.fds, n);
      assert Frame(order, p)[m..n] == Frame(order, p)[..n];
    }
  }

  lemma UnsentDepends(order: ByteOrder, s: State, s': State)
    requires SendSide(order, s) && s'.sender == s.sender
    ensures Unsent(order, s') == Unsent(order, s)
  {
  }

  lemma StreamLongEnough(order: ByteOrder, s: State, n: nat)
    requires Invariant(order, s) && n <= |s.inFlight|
    ensures Taken(s) + n <= |Stream(order, s.started[|s.delivered|..])|
  {
    hide Serialize, Frame, Holds, Unsent, Stream;
    assert |Stream(order, s.started[|s.delivered|..])[Taken(s)..]| == |s.inFlight| + |Unsent(order, s)|;
  }

  lemma KeepsParseHeader(order: ByteOrder, s: State)
    requires Invariant(order, s) && Enabled(order, s, ParseHeader)
    ensures Invariant(order, Do(order, s, ParseHeader))
  {
    hide Serialize, Stream, Frame, Unsent, HeaderId, HeaderSize, HeaderOpcode, HeaderError;
    var s' := Do(order, s, ParseHeader);
    var p := s.started[|s.delivered|];
    FrameLength(order, p);
    FrameHeader(order, p);
    assert s.receiver.value.got == Serialize(order, p).value[..8];
    UnsentDepends(order, s, s');
  }

  lemma KeepsReadPayload(order: ByteOrder, s: State, n: nat)
    requires Invariant(order, s) && Enabled(order, s, ReadPayload(n))
    ensures Invariant(order, Do(order, s, ReadPayload(n)))
  {
    hide Serialize, Stream, Frame, Unsent, Riding, SendSide, AllFit, BytesOf, MaskedAll;
    var s' := Do(order, s, ReadPayload(n));
    var k := Taken(s);
    SendSideOf(order, s);
    ReadTakes(order, s, n);
    var p := s.started[|s.delivered|];
    FrameLength(order, p);
    FrameSlice(order, p, k, k + n);
    JoinSlices(Serialize(order, p).value, 8, k, k + n);
    UnsentDepends(order, s, s');
    ReadKeepsSendSide(order, s, s');
    StreamLongEnough(order, s, n);
  }

  lemma KeepsUnlockReceive(order: ByteOrder, s: State)
    requires Invariant(order, s) && Enabled(order, s, UnlockReceive)
    ensures Invariant(order, Do(order, s, UnlockReceive))
  {
    hide Serialize, Stream, Frame, Unsent;
    var s' := Do(order, s, UnlockReceive);
    var d, p := |s.delivered|, s.started[|s.delivered|];
    FrameLength(order, p);
    FrameHeader(order, p);
    assert s.receiver.value.got == p.payload by {
      assert Serialize(order, p).value[8..|Serialize(order, p).value|] == Serialize(order, p).value[8..];
    }
    assert s.started[..d + 1] == s.started[..d] + [p];
    assert s'.delivered == MaskedAll(s.started[..d + 1]);
    StreamHead(order, s.started, d);
    assert Stream(order, s.started[d..])[Taken(s)..] == Stream(order, s.started[d + 1..]);
    UnsentDepends(order, s, s');
  }

  lemma Keeps(order: ByteOrder, s: State, step: Step)
    requires Invariant(order, s) && Enabled(order, s, step)
    ensures Invariant(order, Do(order, s, step))
  {
    hide Do, Invariant, Enabled;
    match step
    case CallSend(t, p) => KeepsCall(order, s, step);
    case LockSend(t) => KeepsLockSend(order, s, t);
    case Write(n) => KeepsWrite(order, s, n);
    case UnlockSend => KeepsUnlockSend(order, s);
    case CallReceive(t) => KeepsCall(order, s, step);
    case LockReceive(t) => KeepsLockReceive(order, s, t);
    case ReadHeader(n) => KeepsReadHeader(order, s, n);
    case ParseHeader => KeepsParseHeader(order, s);
    case ReadPayload(n) => KeepsReadPayload(order, s, n);
    case UnlockReceive => KeepsUnlockReceive(order, s);
  }

  lemma KeepsCall(order: ByteOrder, s: State, step: Step)
    requires step.CallSend? || step.CallReceive?
    requires Invariant(order, s) && Enabled(order, s, step)
    ensures Invariant(order, Do(order, s, step))
  {
    hide Serialize, Stream, Frame, Unsent, Holds;
    UnsentDepends(order, s, Do(order, s, step));
  }

  lemma KeepsLockReceive(order: ByteOrder, s: State, t: CallerId)
    requires Invariant(order, s) && Enabled(order, s, LockReceive(t))
    ensures Invariant(order, Do(order, s, LockReceive(t)))
  {
    hide Serialize, Stream, Frame, Unsent;
    UnsentDepends(order, s, Do(order, s, LockReceive(t)));
  }

  /** The invariant holds in every state of every run. */
  lemma RunKeeps(order: ByteOrder, steps: seq<Step>)
    ensures Run(order, steps).Some? ==> Invariant(order, Run(order, steps).value)
  {
    hide Invariant, RunFrom;
    InitHolds(order);
    RunFromKeeps(order, INIT, steps);
  }

  lemma {:induction false} RunFromKeeps(order: ByteOrder, start: State, steps: seq<Step>)
    requires Invariant(order, start)
    ensures RunFrom(order, start, steps).Some? ==> Invariant(order, RunFrom(order, start, steps).value)
    decreases |steps|
  {
    hide Enabled, Do, Invariant;
    if |steps| > 0 {
      RunFromKeeps(order, start, steps[..|steps| - 1]);
      var before := RunFrom(order, start, steps[..|steps| - 1]);
      if before.Some? && Enabled(order, before.value, steps[|steps| - 1]) {
        Keeps(order, before.value, steps[|steps| - 1]);
      }
    }
  }

  lemma InitHolds(order: ByteOrder)
    ensures Invariant(order, INIT)
  {
    assert MaskedAll([]) == [];
  }

  // ----- safety over whole runs -----

  /** At every moment of every run, the stream is a concatenation of whole frames, in the order in
      which the lock was taken, plus a beginning of the lock holder's frame. */
  lemma WholeFramesPlusPrefix(order: ByteOrder, steps: seq<Step>)
    requires Run(order, steps).Some?
    ensures var s := Run(order, steps).value;
            && AllFit(order, s.started)
            && (s.sender.None? ==> s.written == Stream(order, s.started))
            && (s.sender.Some? ==>
                  |s.started| > 0 &&
                  var done := s.started[..|s.started| - 1];
                  && s.started == done + [s.sender.value.packet]
                  && AllFit(order, done) && Serialize(order, s.sender.value.packet).Ok?
                  && s.sender.value.sent <= |Frame(order, s.sender.value.packet)|
                  && s.written == Stream(order, done) + Frame(order, s.sender.value.packet)[..s.sender.value.sent])
  {
    hide Serialize, Stream, Frame, Run;
    RunKeeps(order, steps);
    var s := Run(order, steps).value;
    if s.sender.Some? {
      var done := s.started[..|s.started| - 1];
      var p, k := s.sender.value.packet, s.sender.value.sent;
      assert s.started == done + [p];
      StreamAppend(order, done, p);
      var frame := Frame(order, p);
      assert frame == frame[..k] + frame[k..];
      assert Stream(order, done) + frame == Stream(order, done) + frame[..k] + frame[k..];
      CancelRight(s.written, Stream(order, done) + frame[..k], frame[k..]);
    }
  }

  lemma CancelRight(a: seq<Cell>, b: seq<Cell>, c: seq<Cell>)
    requires a + c == b + c
    ensures a == b
  {
    assert |a| == |b|;
    assert a == (a + c)[..|a|] == (b + c)[..|b|] == b;
  }

  /** In every run, what the receives have returned so far is what was sent first, in lock order,
      packet by packet and descriptor by descriptor; no receive ever fails. */
  lemma DeliveredInOrder(order: ByteOrder, steps: seq<Step>)
    requires Run(order, steps).Some?
    ensures var s := Run(order, steps).value;
            && |s.delivered| <= |s.started|
            && (forall i :: 0 <= i < |s.delivered| ==> s.delivered[i] == Masked(s.started[i]))
            && (s.receiver.Some? ==> !s.receiver.value.Failed?)
  {
    hide Serialize, Stream, Frame, Run, Holds;
    RunKeeps(order, steps);
  }

  /** Nothing is lost: once no caller is inside a lock and nothing is in flight, everything whose
      sending was started has been delivered. */
  lemma NothingLost(order: ByteOrder, steps: seq<Step>)
    requires Run(order, steps).Some?
    ensures var s := Run(order, steps).value;
            s.sender.None? && s.receiver.None? && s.inFlight == [] ==> s.delivered == MaskedAll(s.started)
  {
    hide Serialize, Frame, Run;
    RunKeeps(order, steps);
    var s := Run(order, steps).value;
    var d := |s.delivered|;
    if s.sender.None? && s.receiver.None? && s.inFlight == [] {
      if d < |s.started| {
        StreamHead(order, s.started, d);
      }
      assert s.started[..d] == s.started;
    }
  }

  // ----- progress -----

  /** What the lock holders, the bytes in flight and the waiting receivers still have to do. */
  function Work(order: ByteOrder, s: State): nat
    requires SendSide(order, s)
  {
    var phase := match s.receiver
                 case None => 0
                 case Some(ReadingHeader(_, _, _)) => 2
                 case Some(_) => 1;
    3 * |Unsent(order, s)| + 2 * |s.inFlight| + (if s.sender.Some? then 1 else 0) + 3 * |s.waitingToReceive| + phase
  }

  /** A frame has at most 65535 bytes; each is written once and read once. */
  const WORK_PER_SEND := 3 * MAX_PACKET_SIZE + 2

  function WorkOfSends(n: nat): nat {
    n * WORK_PER_SEND
  }

  /** The most steps that can be taken before somebody calls again. */
  function StepsLeft(order: ByteOrder, s: State): nat
    requires SendSide(order, s)
  {
    WorkOfSends(|s.waitingToSend|) + Work(order, s)
  }

  predicate IsCall(step: Step) {
    step.CallSend? || step.CallReceive?
  }

  /** Every step of a lock holder, and every acquisition, leaves fewer steps. */
  lemma StepsUseUpWork(order: ByteOrder, s: State, step: Step)
    requires Invariant(order, s) && Enabled(order, s, step) && !IsCall(step)
    ensures Invariant(order, Do(order, s, step))
    ensures StepsLeft(order, Do(order, s, step)) < StepsLeft(order, s)
  {
    hide Serialize, Stream, Holds, Invariant, Enabled, Do, Work;
    Keeps(order, s, step);
    var s' := Do(order, s, step);
    SendSideHolds(order, s);
    SendSideHolds(order, s');
    match step
    case LockSend(t) => LockSendUsesUp(order, s, t);
    case Write(n) => WriteUsesUp(order, s, n);
    case LockReceive(t) => LockReceiveUsesUp(order, s, t);
    case _ => OtherStepUsesUp(order, s, step);
  }

  lemma LockSendUsesUp(order: ByteOrder, s: State, t: CallerId)
    requires SendSide(order, s) && Enabled(order, s, LockSend(t)) && SendSide(order, Do(order, s, LockSend(t)))
    ensures |Do(order, s, LockSend(t)).waitingToSend| == |s.waitingToSend| - 1
    ensures Work(order, Do(order, s, LockSend(t))) < Work(order, s) + WORK_PER_SEND
  {
    hide Stream;
    assert Do(order, s, LockSend(t)).waitingToSend.Keys == s.waitingToSend.Keys - {t};
    FrameLength(order, s.waitingToSend[t]);
  }

  lemma WriteUsesUp(order: ByteOrder, s: State, n: nat)
    requires SendSide(order, s) && Enabled(order, s, Write(n)) && SendSide(order, Do(order, s, Write(n)))
    ensures Do(order, s, Write(n)).waitingToSend == s.waitingToSend
    ensures Work(order, Do(order, s, Write(n))) < Work(order, s)
  {
    hide Serialize, Stream, WrittenBy;
    FrameLength(order, s.sender.value.packet);
    assert |WrittenBy(order, s.sender.value, n)| == n by {
      WriteMoves(order, s.sender.value, n);
    }
  }

  lemma LockReceiveUsesUp(order: ByteOrder, s: State, t: CallerId)
    requires SendSide(order, s) && Enabled(order, s, LockReceive(t)) && SendSide(order, Do(order, s, LockReceive(t)))
    ensures Do(order, s, LockReceive(t)).waitingToSend == s.waitingToSend
    ensures Work(order, Do(order, s, LockReceive(t))) < Work(order, s)
  {
    hide Serialize, Stream, Unsent;
    UnsentDepends(order, s, Do(order, s, LockReceive(t)));
    assert |s.waitingToReceive - {t}| == |s.waitingToReceive| - 1;
  }

  lemma OtherStepUsesUp(order: ByteOrder, s: State, step: Step)
    requires step.UnlockSend? || step.ReadHeader? || step.ParseHeader? || step.ReadPayload? || step.UnlockReceive?
    requires SendSide(order, s) && Enabled(order, s, step) && SendSide(order, Do(order, s, step))
    ensures Do(order, s, step).waitingToSend == s.waitingToSend
    ensures Work(order, Do(order, s, step)) < Work(order, s)
  {
    hide Serialize, Stream, Frame;
  }

  lemma SendSideHolds(order: ByteOrder, s: State)
    requires Invariant(order, s)
    ensures SendSide(order, s)
  {
  }

  /** Short of calls, the only thing the connection can wait for is a receiver: while a packet is
      undelivered and some caller wants to receive, a step of a lock holder or an acquisition is enabled. */
  lemma NeverStuck(order: ByteOrder, s: State)
    requires Invariant(order, s)
    requires |s.delivered| < |s.started| && (s.receiver.Some? || s.waitingToReceive != {})
    ensures exists step :: Enabled(order, s, step) && !IsCall(step)
  {
    hide Serialize, Stream, Frame;
    if s.receiver.None? {
      var t :| t in s.waitingToReceive;
      assert Enabled(order, s, LockReceive(t));
    } else if s.sender.Some? {
      SenderCanStep(order, s);
    } else {
      ReceiverCanStep(order, s);
    }
  }

  lemma SenderCanStep(order: ByteOrder, s: State)
    requires Invariant(order, s) && s.sender.Some?
    ensures exists step :: Enabled(order, s, step) && !IsCall(step)
  {
    hide Serialize, Stream, Frame, Holds;
    if s.sender.value.sent == |Frame(order, s.sender.value.packet)| {
      assert Enabled(order, s, UnlockSend);
    } else {
      assert Enabled(order, s, Write(1));
    }
  }

  lemma ReceiverCanStep(order: ByteOrder, s: State)
    requires Invariant(order, s) && s.sender.None? && s.receiver.Some? && |s.delivered| < |s.started|
    ensures exists step :: Enabled(order, s, step) && !IsCall(step)
  {
    hide Serialize, Stream, Frame;
    var d := |s.delivered|;
    var p := s.started[d];
    StreamHead(order, s.started, d);
    FrameLength(order, p);
    assert |Stream(order, s.started[d..])| == Taken(s) + |s.inFlight|;
    match s.receiver.value {
      case ReadingHeader(_, got, _) =>
        if |got| < 8 {
          assert Enabled(order, s, ReadHeader(1));
        } else {
          assert Enabled(order, s, ParseHeader);
        }
      case ReadingPayload(_, _, _, size, got, _) =>
        if 8 + |got| < size {
          assert Enabled(order, s, ReadPayload(1));
        } else {
          assert Enabled(order, s, UnlockReceive);
        }
    }
  }

  // ----- runs without further calls -----

  predicate CallFree(steps: seq<Step>) {
    forall i :: 0 <= i < |steps| ==> !IsCall(steps[i])
  }

  /** However the scheduler chooses, calls that have been made cause only so many steps. */
  lemma {:induction false} RunsEnd(order: ByteOrder, s: State, steps: seq<Step>)
    requires Invariant(order, s) && CallFree(steps) && RunFrom(order, s, steps).Some?
    ensures Invariant(order, RunFrom(order, s, steps).value)
    ensures |steps| + StepsLeft(order, RunFrom(order, s, steps).value) <= StepsLeft(order, s)
    decreases |steps|
  {
    hide Enabled, Do, Invariant, IsCall, StepsLeft;
    SendSideHolds(order, s);
    if |steps| > 0 {
      var front := steps[..|steps| - 1];
      RunsEnd(order, s, front);
      StepsUseUpWork(order, RunFrom(order, s, front).value, steps[|steps| - 1]);
    }
  }

  function Receivers(s: State): nat {
    |s.waitingToReceive| + if s.receiver.Some? then 1 else 0
  }

  /** From s to s', no call was lost: each receive still pending or done, each send still pending or
      started, and nothing started that was not called for. */
  predicate CallsKept(s: State, s': State) {
    && s.started <= s'.started
    && |s'.delivered| + Receivers(s') == |s.delivered| + Receivers(s)
    && |s'.started| + |s'.waitingToSend| == |s.started| + |s.waitingToSend|
    && forall c :: c in s.waitingToSend ==>
         (c in s'.waitingToSend && s'.waitingToSend[c] == s.waitingToSend[c]) || s.waitingToSend[c] in s'.started
  }

  lemma StepKeepsCalls(order: ByteOrder, s: State, step: Step)
    requires Enabled(order, s, step) && !IsCall(step)
    ensures CallsKept(s, Do(order, s, step))
  {
    hide Serialize, Frame, CallsKept, Enabled, Do;
    match step
    case LockSend(t) => LockSendKeepsCalls(order, s, t);
    case LockReceive(t) => LockReceiveKeepsCalls(order, s, t);
    case _ => OtherStepKeepsCalls(order, s, step);
  }

  lemma LockSendKeepsCalls(order: ByteOrder, s: State, t: CallerId)
    requires Enabled(order, s, LockSend(t))
    ensures CallsKept(s, Do(order, s, LockSend(t)))
  {
    hide Serialize, Frame;
    assert Do(order, s, LockSend(t)).waitingToSend.Keys == s.waitingToSend.Keys - {t};
    var started := Do(order, s, LockSend(t)).started;
    assert started[|started| - 1] == s.waitingToSend[t];
  }

  lemma LockReceiveKeepsCalls(order: ByteOrder, s: State, t: CallerId)
    requires Enabled(order, s, LockReceive(t))
    ensures CallsKept(s, Do(order, s, LockReceive(t)))
  {
    hide Serialize, Frame;
    assert |s.waitingToReceive - {t}| == |s.waitingToReceive| - 1;
  }

  lemma OtherStepKeepsCalls(order: ByteOrder, s: State, step: Step)
    requires Enabled(order, s, step) && !IsCall(step) && !step.LockSend? && !step.LockReceive?
    ensures CallsKept(s, Do(order, s, step))
  {
    hide Serialize, Frame, HeaderError, HeaderId, HeaderSize, HeaderOpcode, WrittenBy, Riding, BytesOf;
  }

  lemma {:induction false} RunKeepsCalls(order: ByteOrder, s: State, steps: seq<Step>)
    requires CallFree(steps) && RunFrom(order, s, steps).Some?
    ensures CallsKept(s, RunFrom(order, s, steps).value)
    decreases |steps|
  {
    hide Enabled, Do, IsCall;
    if |steps| > 0 {
      var front := steps[..|steps| - 1];
      var before := RunFrom(order, s, front).value;
      RunKeepsCalls(order, s, front);
      StepKeepsCalls(order, before, steps[|steps| - 1]);
      forall p | p in before.started
        ensures p in RunFrom(order, s, steps).value.started
      {
      }
    }
  }

  /** No step is possible until somebody calls. */
  ghost predicate AtRest(order: ByteOrder, s: State) {
    forall step :: Enabled(order, s, step) ==> IsCall(step)
  }

  lemma RestingSender(order: ByteOrder, s: State)
    requires Invariant(order, s) && AtRest(order, s)
    ensures s.sender.None? && s.waitingToSend == map[]
  {
    hide Serialize, Frame, Stream, Invariant;
    if s.sender.Some? {
      SenderCanStep(order, s);
    } else if s.waitingToSend != map[] {
      WaitingSenderCanStep(order, s);
    }
  }

  lemma WaitingSenderCanStep(order: ByteOrder, s: State)
    requires s.sender.None? && s.waitingToSend != map[]
    ensures exists step :: Enabled(order, s, step) && !IsCall(step)
  {
    var t :| t in s.waitingToSend;
    assert Enabled(order, s, LockSend(t));
  }

  /** With at least as many receivers as packets, any schedule of the calls made delivers everything:
      it takes a bounded number of steps, and where it can go no further every send has been started,
      every packet delivered in lock order, and the stream is empty. */
  lemma EverythingIsDelivered(order: ByteOrder, s: State, steps: seq<Step>)
    requires Invariant(order, s) && CallFree(steps) && RunFrom(order, s, steps).Some?
    requires AtRest(order, RunFrom(order, s, steps).value)
    requires |s.delivered| + Receivers(s) >= |s.started| + |s.waitingToSend|
    ensures |steps| <= StepsLeft(order, s)
    ensures var s' := RunFrom(order, s, steps).value;
            && s'.delivered == MaskedAll(s'.started) && s'.inFlight == []
            && s.started <= s'.started && |s'.started| == |s.started| + |s.waitingToSend|
            && forall c :: c in s.waitingToSend ==> s.waitingToSend[c] in s'.started
  {
    hide Enabled, RunFrom, Serialize, Frame, IsCall, StepsLeft, MaskedAll;
    SendSideHolds(order, s);
    var s' := RunFrom(order, s, steps).value;
    RunsEnd(order, s, steps);
    RunKeepsCalls(order, s, steps);
    RestingSender(order, s');
    if |s'.delivered| < |s'.started| {
      NeverStuck(order, s');
    }
    assert s'.started[..|s'.delivered|] == s'.started;
    assert s'.started[|s'.delivered|..] == [];
  }

  // ----- every fragmentation occurs -----

  lemma {:induction false} RunConcat(order: ByteOrder, s: State, a: seq<Step>, b: seq<Step>)
    ensures RunFrom(order, s, a + b)
         == if RunFrom(order, s, a).None? then None else RunFrom(order, RunFrom(order, s, a).value, b)
    decreases |b|
  {
    hide Enabled, Do;
    if |b| == 0 {
      assert a + b == a;
    } else {
      var front := b[..|b| - 1];
      assert (a + b)[..|a + b| - 1] == a + front;
      RunConcat(order, s, a, front);
    }
  }

  lemma RunStep(order: ByteOrder, s: State, step: Step, rest: seq<Step>)
    requires Enabled(order, s, step)
    ensures RunFrom(order, s, [step] + rest) == RunFrom(order, Do(order, s, step), rest)
  {
    hide Enabled, Do;
    RunConcat(order, s, [step], rest);
    assert [step][..0] == [];
    assert RunFrom(order, s, []) == Some(s);
  }

  function Sum(ns: seq<nat>): nat {
    if |ns| == 0 then 0 else Sum(ns[..|ns| - 1]) + ns[|ns| - 1]
  }

  /** Nonempty pieces of this total length. */
  predicate Pieces(ns: seq<nat>, total: nat) {
    Sum(ns) == total && forall i :: 0 <= i < |ns| ==> ns[i] > 0
  }

  /** How the socket cuts one packet: the sizes of the writes, and of the reads of header and payload. */
  datatype Cut = Cut(writes: seq<nat>, headerReads: seq<nat>, payloadReads: seq<nat>)

  predicate Cuts(cut: Cut, p: PacketData) {
    Pieces(cut.writes, 8 + |p.payload|) && Pieces(cut.headerReads, 8) && Pieces(cut.payloadReads, |p.payload|)
  }

  function Writes(ns: seq<nat>): seq<Step> {
    seq(|ns|, i requires 0 <= i < |ns| => Write(ns[i]))
  }

  function HeaderReads(ns: seq<nat>): seq<Step> {
    seq(|ns|, i requires 0 <= i < |ns| => ReadHeader(ns[i]))
  }

  function PayloadReads(ns: seq<nat>): seq<Step> {
    seq(|ns|, i requires 0 <= i < |ns| => ReadPayload(ns[i]))
  }

  function SendSteps(c: CallerId, p: PacketData, cut: Cut): seq<Step> {
    [CallSend(c, p)] + ([LockSend(c)] + (Writes(cut.writes) + [UnlockSend]))
  }

  function ReceiveSteps(c: CallerId, cut: Cut): seq<Step> {
    [CallReceive(c)] + ([LockReceive(c)] + (HeaderReads(cut.headerReads)
                                            + ([ParseHeader] + (PayloadReads(cut.payloadReads) + [UnlockReceive]))))
  }

  lemma {:induction false} WritesRun(order: ByteOrder, s: State, ns: seq<nat>)
    requires s.sender.Some? && Serialize(order, s.sender.value.packet).Ok?
    requires s.sender.value.sent + Sum(ns) <= |Frame(order, s.sender.value.packet)|
    requires forall i :: 0 <= i < |ns| ==> ns[i] > 0
    ensures RunFrom(order, s, Writes(ns)).Some?
    ensures var s' := RunFrom(order, s, Writes(ns)).value;
            && s'.sender == Some(s.sender.value.(sent := s.sender.value.sent + Sum(ns)))
            && s' == s.(sender := s'.sender, inFlight := s'.inFlight, written := s'.written)
    decreases |ns|
  {
    hide Serialize, Frame, WrittenBy;
    FrameLength(order, s.sender.value.packet);
    if |ns| > 0 {
      var front := ns[..|ns| - 1];
      WritesRun(order, s, front);
      assert Writes(ns)[..|ns| - 1] == Writes(front);
    }
  }

  lemma {:induction false} HeaderReadsRun(order: ByteOrder, s: State, ns: seq<nat>)
    requires s.receiver.Some? && s.receiver.value.ReadingHeader?
    requires |s.receiver.value.got| + Sum(ns) <= 8 && Sum(ns) <= |s.inFlight|
    requires forall i :: 0 <= i < |ns| ==> ns[i] > 0
    ensures RunFrom(order, s, HeaderReads(ns)).Some?
    ensures var s' := RunFrom(order, s, HeaderReads(ns)).value;
            && s'.receiver.Some? && s'.receiver.value.ReadingHeader?
            && |s'.receiver.value.got| == |s.receiver.value.got| + Sum(ns)
            && |s'.inFlight| == |s.inFlight| - Sum(ns)
            && s' == s.(receiver := s'.receiver, inFlight := s'.inFlight)
    decreases |ns|
  {
    hide Serialize, Frame, Riding;
    if |ns| > 0 {
      var front := ns[..|ns| - 1];
      HeaderReadsRun(order, s, front);
      assert HeaderReads(ns)[..|ns| - 1] == HeaderReads(front);
    }
  }

  lemma {:induction false} PayloadReadsRun(order: ByteOrder, s: State, ns: seq<nat>)
    requires s.receiver.Some? && s.receiver.value.ReadingPayload?
    requires 8 + |s.receiver.value.got| + Sum(ns) <= s.receiver.value.size && Sum(ns) <= |s.inFlight|
    requires forall i :: 0 <= i < |ns| ==> ns[i] > 0
    ensures RunFrom(order, s, PayloadReads(ns)).Some?
    ensures var s' := RunFrom(order, s, PayloadReads(ns)).value;
            && s'.receiver.Some? && s'.receiver.value.ReadingPayload?
            && s'.receiver.value.size == s.receiver.value.size
            && |s'.receiver.value.got| == |s.receiver.value.got| + Sum(ns)
            && |s'.inFlight| == |s.inFlight| - Sum(ns)
            && s' == s.(receiver := s'.receiver, inFlight := s'.inFlight)
    decreases |ns|
  {
    hide Serialize, Frame;
    if |ns| > 0 {
      var front := ns[..|ns| - 1];
      PayloadReadsRun(order, s, front);
      assert PayloadReads(ns)[..|ns| - 1] == PayloadReads(front);
    }
  }

  /** Nobody waits, nobody is inside a lock, and everything sent has been delivered. */
  predicate Idle(s: State) {
    && s.waitingToSend == map[] && s.sender == None && s.waitingToReceive == {} && s.receiver == None
    && s.inFlight == [] && |s.delivered| == |s.started|
  }

  lemma SendRuns(order: ByteOrder, s: State, c: CallerId, p: PacketData, cut: Cut)
    requires Idle(s) && Serialize(order, p).Ok? && Cuts(cut, p)
    ensures RunFrom(order, s, SendSteps(c, p, cut)).Some?
    ensures var s' := RunFrom(order, s, SendSteps(c, p, cut)).value;
            s' == s.(started := s.started + [p], inFlight := s'.inFlight, written := s'.written)
  {
    hide Serialize, Frame, RunFrom, Writes, Sum;
    FrameLength(order, p);
    var s1 := Do(order, s, CallSend(c, p));
    var s2 := Do(order, s1, LockSend(c));
    var rest := Writes(cut.writes) + [UnlockSend];
    RunStep(order, s, CallSend(c, p), [LockSend(c)] + rest);
    RunStep(order, s1, LockSend(c), rest);
    WritesRun(order, s2, cut.writes);
    RunConcat(order, s2, Writes(cut.writes), [UnlockSend]);
    var s3 := RunFrom(order, s2, Writes(cut.writes)).value;
    LastStep(order, s3, UnlockSend);
    assert s1.waitingToSend - {c} == map[];
  }

  lemma LastStep(order: ByteOrder, s: State, step: Step)
    requires Enabled(order, s, step)
    ensures RunFrom(order, s, [step]) == Some(Do(order, s, step))
  {
    hide Enabled, Do;
    RunStep(order, s, step, []);
    assert [step] + [] == [step];
  }

  /** With one whole frame in flight, a receive gets it, whatever the sizes of the reads. */
  lemma ReceiveRuns(order: ByteOrder, s: State, c: CallerId, p: PacketData, cut: Cut)
    requires Invariant(order, s) && Cuts(cut, p)
    requires s.waitingToReceive == {} && s.receiver == None
    requires |s.started| == |s.delivered| + 1 && s.started[|s.delivered|] == p && |s.inFlight| == 8 + |p.payload|
    ensures RunFrom(order, s, ReceiveSteps(c, cut)).Some?
    ensures var s' := RunFrom(order, s, ReceiveSteps(c, cut)).value;
            && s' == s.(inFlight := s'.inFlight, delivered := s'.delivered)
            && s'.inFlight == [] && |s'.delivered| == |s'.started|
  {
    hide Serialize, Frame, Stream, RunFrom, HeaderReads, PayloadReads, Sum, Invariant, HeaderError, Riding;
    var s1 := Do(order, s, CallReceive(c));
    var s2 := Do(order, s1, LockReceive(c));
    var last := PayloadReads(cut.payloadReads) + [UnlockReceive];
    var middle := HeaderReads(cut.headerReads) + ([ParseHeader] + last);
    RunStep(order, s, CallReceive(c), [LockReceive(c)] + middle);
    RunStep(order, s1, LockReceive(c), middle);
    assert s2 == s.(receiver := Some(ReadingHeader(c, [], [])));
    HeaderReadsRun(order, s2, cut.headerReads);
    RunConcat(order, s2, HeaderReads(cut.headerReads), [ParseHeader] + last);
    var s3 := RunFrom(order, s2, HeaderReads(cut.headerReads)).value;
    Keeps(order, s, CallReceive(c));
    Keeps(order, s1, LockReceive(c));
    RunFromKeeps(order, s2, HeaderReads(cut.headerReads));
    var s4 := Do(order, s3, ParseHeader);
    RunStep(order, s3, ParseHeader, last);
    Keeps(order, s3, ParseHeader);
    ParsedHolds(order, s3, p);
    PayloadReadsRun(order, s4, cut.payloadReads);
    RunConcat(order, s4, PayloadReads(cut.payloadReads), [UnlockReceive]);
    LastStep(order, RunFrom(order, s4, PayloadReads(cut.payloadReads)).value, UnlockReceive);
  }

  /** Parsing the whole header of p leads to reading a payload of p's size. */
  lemma ParsedHolds(order: ByteOrder, s: State, p: PacketData)
    requires Enabled(order, s, ParseHeader) && Invariant(order, s) && Invariant(order, Do(order, s, ParseHeader))
    requires |s.delivered| < |s.started| && s.started[|s.delivered|] == p
    ensures var s' := Do(order, s, ParseHeader);
            && s' == s.(receiver := s'.receiver) && s'.receiver.Some? && s'.receiver.value.ReadingPayload?
            && s'.receiver.value.got == [] && s'.receiver.value.size == 8 + |p.payload|
  {
    hide Serialize, Frame, Stream, HeaderError, Unsent;
    FrameLength(order, p);
  }

  lemma OneFrameInFlight(order: ByteOrder, s: State, p: PacketData)
    requires Invariant(order, s) && s.sender.None? && s.receiver.None?
    requires |s.started| == |s.delivered| + 1 && s.started[|s.delivered|] == p
    ensures |s.inFlight| == 8 + |p.payload|
  {
    hide Serialize, Frame;
    StreamHead(order, s.started, |s.delivered|);
    FrameLength(order, p);
    assert s.started[|s.delivered| + 1..] == [];
    assert Stream(order, s.started[|s.delivered|..])[0..] == Stream(order, s.started[|s.delivered|..]);
  }

  /** Packet by packet: sent in these pieces, then received in these pieces. */
  function Schedule(c: CallerId, ps: seq<PacketData>, cuts: seq<Cut>): seq<Step>
    requires |ps| == |cuts|
  {
    if |ps| == 0 then []
    else
      var n := |ps| - 1;
      Schedule(c, ps[..n], cuts[..n]) + (SendSteps(c, ps[n], cuts[n]) + ReceiveSteps(c, cuts[n]))
  }

  /** Runs exist: any packets, cut into any nonempty writes and reads, are delivered by a run that takes
      exactly these writes and reads. */
  lemma {:induction false} ScheduleRuns(order: ByteOrder, c: CallerId, ps: seq<PacketData>, cuts: seq<Cut>)
    requires |ps| == |cuts| && AllFit(order, ps) && forall i :: 0 <= i < |ps| ==> Cuts(cuts[i], ps[i])
    ensures Run(order, Schedule(c, ps, cuts)).Some?
    ensures var s := Run(order, Schedule(c, ps, cuts)).value;
            Idle(s) && s.started == ps && s.delivered == MaskedAll(ps)
    decreases |ps|
  {
    hide RunFrom, Invariant, Serialize, Frame, SendSteps, ReceiveSteps, Cuts, MaskedAll;
    RunKeeps(order, Schedule(c, ps, cuts));
    if |ps| == 0 {
      NoSteps(order);
    } else {
      var n := |ps| - 1;
      var p, cut := ps[n], cuts[n];
      ScheduleRuns(order, c, ps[..n], cuts[..n]);
      RunKeeps(order, Schedule(c, ps[..n], cuts[..n]));
      var s := Run(order, Schedule(c, ps[..n], cuts[..n])).value;
      RunConcat(order, INIT, Schedule(c, ps[..n], cuts[..n]), SendSteps(c, p, cut) + ReceiveSteps(c, cut));
      SendRuns(order, s, c, p, cut);
      RunConcat(order, s, SendSteps(c, p, cut), ReceiveSteps(c, cut));
      RunFromKeeps(order, s, SendSteps(c, p, cut));
      var s' := RunFrom(order, s, SendSteps(c, p, cut)).value;
      OneFrameInFlight(order, s', p);
      ReceiveRuns(order, s', c, p, cut);
      assert ps[..n] + [p] == ps;
      IdleDelivered(order, Run(order, Schedule(c, ps, cuts)).value);
    }
  }

  lemma NoSteps(order: ByteOrder)
    ensures RunFrom(order, INIT, []) == Some(INIT) && MaskedAll([]) == []
  {
  }

  lemma IdleDelivered(order: ByteOrder, s: State)
    requires Invariant(order, s) && Idle(s)
    ensures s.delivered == MaskedAll(s.started)
  {
    hide Serialize, Frame, Stream, MaskedAll;
    assert s.started[..|s.delivered|] == s.started;
  }
}
