/** What the generated code does when it runs: its meaning, and its execution on the packet classes. */
module GeneratedCode {
  import opened Numbers
  import opened Outcomes
  import opened Packets
  import opened Codec
  import opened PacketBuffer
  import opened Generator

  type Env = map<string, WireValue>

  // ----- decoding -----

  function LetNames(lets: seq<Let>): set<string> {
    set l | l in lets :: l.name
  }

  /** A run of `let name = reader.read_...()?;` statements. A later binding shadows an earlier one. */
  function RunLets(order: ByteOrder, lets: seq<Let>, p: PacketData, c: Cursor, env: Env)
    : (r: Result<(Env, Cursor), Error>)
    ensures r.Ok? ==> r.value.0.Keys == env.Keys + LetNames(lets)
  {
    if |lets| == 0 then Ok((env, c))
    else
      var r := ReadValue(order, lets[0].fn, p.payload, p.fds, c);
      match r.result
      case Err(e) => Err(e)
      case Ok(v) =>
        assert lets == [lets[0]] + lets[1..];
        RunLets(order, lets[1..], p, r.cursor, env[lets[0].name := v])
  }

  /** The statements, then `reader.finish()?`. */
  function RunDecoder(order: ByteOrder, lets: seq<Let>, p: PacketData): (r: Result<Env, Error>)
    ensures r.Ok? ==> r.value.Keys == LetNames(lets)
  {
    Finished(p, RunLets(order, lets, p, Cursor(0, 0), map[]))
  }

  function Finished(p: PacketData, run: Result<(Env, Cursor), Error>): Result<Env, Error> {
    match run
    case Err(e) => Err(e)
    case Ok((env, c)) =>
      match Finish(p.payload, p.fds, c)
      case Err(e) => Err(e)
      case Ok(_) => Ok(env)
  }

  function Restrict(env: Env, names: seq<string>): Env {
    map n | n in env && n in names :: env[n]
  }

  /** `try_from_packet`: the struct literal picks its fields out of the local variables. */
  function StructFrom(order: ByteOrder, s: ArgStruct, p: PacketData): Result<Env, Error> {
    match RunDecoder(order, s.decoders, p)
    case Err(e) => Err(e)
    case Ok(env) => Ok(Restrict(env, s.fieldNames))
  }

  function Pick(env: Env, names: seq<string>): (vs: seq<WireValue>)
    requires forall n :: n in names ==> n in env
    ensures |vs| == |names|
  {
    seq(|names|, i requires 0 <= i < |names| => env[names[i]])
  }

  datatype Dispatched = Called(handler: string, args: seq<WireValue>) | UnknownEvent | Rejected(error: Error)

  /** The handler call names only variables that the arm binds. */
  predicate ArmCompiles(arm: MatchArm) {
    forall n :: n in arm.argNames ==> n in LetNames(arm.decoders)
  }

  function RunArm(order: ByteOrder, arm: MatchArm, p: PacketData): Dispatched
    requires ArmCompiles(arm)
  {
    match RunDecoder(order, arm.decoders, p)
    case Err(e) => Rejected(e)
    case Ok(env) => Called(arm.handler, Pick(env, arm.argNames))
  }

  /** `handle_event`: the first arm whose literal is the packet's opcode, else the catch-all arm. */
  function Dispatch(order: ByteOrder, arms: seq<MatchArm>, p: PacketData): Dispatched
    requires forall i :: 0 <= i < |arms| ==> ArmCompiles(arms[i])
  {
    if |arms| == 0 then UnknownEvent
    else if arms[0].opcode == p.opcode then RunArm(order, arms[0], p)
    else Dispatch(order, arms[1..], p)
  }

  // ----- encoding -----

  /** The write calls can run: every variable is bound to a value its write function takes, and no
      string or array makes the push panic. */
  predicate Writable(writes: seq<WriteCall>, env: Env) {
    forall i :: 0 <= i < |writes| ==>
      && writes[i].name in env
      && Accepts(writes[i].fn, env[writes[i].name]) && Encodable(env[writes[i].name])
  }

  function Written(writes: seq<WriteCall>, env: Env): (vs: seq<WireValue>)
    requires Writable(writes, env)
    ensures |vs| == |writes| && AllEncodable(vs)
  {
    seq(|writes|, i requires 0 <= i < |writes| => env[writes[i].name])
  }

  function RunWrites(order: ByteOrder, writes: seq<WriteCall>, env: Env, objectId: Packets.ObjectId, opcode: u16)
    : PacketData
    requires Writable(writes, env)
  {
    var vs := Written(writes, env);
    PacketData(objectId, opcode, EncodeAll(order, vs), AllFds(vs))
  }

  /** `try_into_packet` */
  function StructInto(order: ByteOrder, s: ArgStruct, fields: Env, objectId: Packets.ObjectId): PacketData
    requires Writable(s.writes, fields) && s.opcode < 0x1_0000
  {
    RunWrites(order, s.writes, fields, objectId, s.opcode)
  }

  /** Binding names to values; a later binding of a name shadows an earlier one. */
  function Bind(names: seq<string>, vs: seq<WireValue>): (env: Env)
    requires |names| == |vs|
    ensures forall n :: n in env <==> n in names
  {
    if |names| == 0 then map[] else map[names[0] := vs[0]] + Bind(names[1..], vs[1..])
  }

  /** The packet a proxy function hands to `send_packet`. */
  function ProxyPacket(order: ByteOrder, f: ProxyFunc, objectId: Packets.ObjectId, args: seq<WireValue>): PacketData
    requires |f.params| == |args| && Writable(f.writes, Bind(f.params, args)) && f.opcode < 0x1_0000
  {
    RunWrites(order, f.writes, Bind(f.params, args), objectId, f.opcode)
  }

  // ----- execution on the real buffer and reader -----

  method DecodeLets(lets: seq<Let>, packet: Packet) returns (r: Result<Env, Error>)
    ensures r == RunDecoder(packet.order, lets, packet.View())
  {
    hide ReadValue;
    var reader := packet.Read();
    var env: Env := map[];
    ghost var goal := RunLets(packet.order, lets, packet.View(), Cursor(0, 0), map[]);
    for i := 0 to |lets|
      invariant reader.Valid() && reader.packet == packet && fresh(reader)
      invariant RunLets(packet.order, lets[i..], packet.View(), reader.At(), env) == goal
    {
      assert lets[i..][1..] == lets[i + 1..];
      var v :- reader.ReadBy(lets[i].fn);
      env := env[lets[i].name := v];
    }
    var _ :- reader.Finish();
    return Ok(env);
  }

  method TryFromPacket(s: ArgStruct, packet: Packet) returns (r: Result<Env, Error>)
    ensures r == StructFrom(packet.order, s, packet.View())
  {
    var env :- DecodeLets(s.decoders, packet);
    r := Ok(Restrict(env, s.fieldNames));
  }

  method HandleEvent(arms: seq<MatchArm>, packet: Packet) returns (d: Dispatched)
    requires forall i :: 0 <= i < |arms| ==> ArmCompiles(arms[i])
    ensures d == Dispatch(packet.order, arms, packet.View())
  {
    hide RunDecoder;
    for i := 0 to |arms|
      invariant Dispatch(packet.order, arms, packet.View()) == Dispatch(packet.order, arms[i..], packet.View())
    {
      if arms[i].opcode == packet.opcode {
        var env := DecodeLets(arms[i].decoders, packet);
        match env
        case Err(e) => return Rejected(e);
        case Ok(e) => return Called(arms[i].handler, Pick(e, arms[i].argNames));
      }
      assert arms[i..][1..] == arms[i + 1..];
    }
    return UnknownEvent;
  }

  method WriteFields(writes: seq<WriteCall>, env: Env, packet: Packet)
    requires Writable(writes, env)
    modifies packet`payload, packet`fds
    ensures packet.payload == old(packet.payload) + EncodeAll(packet.order, Written(writes, env))
    ensures packet.fds == old(packet.fds) + AllFds(Written(writes, env))
  {
    hide Encode, Accepts, Encodable, FdsOf;
    var vs := Written(writes, env);
    for i := 0 to |writes|
      invariant packet.payload == old(packet.payload) + EncodeAll(packet.order, vs[..i])
      invariant packet.fds == old(packet.fds) + AllFds(vs[..i])
    {
      packet.Push(writes[i].fn, env[writes[i].name]);
      EncodeOneMore(packet.order, vs, i);
      FdsOneMore(vs, i);
    }
    assert vs[..|writes|] == vs;
  }

  lemma {:induction false} EncodeOneMore(order: ByteOrder, vs: seq<WireValue>, i: nat)
    requires i < |vs| && AllEncodable(vs)
    ensures EncodeAll(order, vs[..i + 1]) == EncodeAll(order, vs[..i]) + Encode(order, vs[i])
    decreases i
  {
    hide Encode, Encodable;
    assert vs[..i + 1][1..] == vs[1..][..i];
    if i > 0 {
      assert vs[..i][1..] == vs[1..][..i - 1];
      EncodeOneMore(order, vs[1..], i - 1);
    }
  }

  lemma {:induction false} FdsOneMore(vs: seq<WireValue>, i: nat)
    requires i < |vs|
    ensures AllFds(vs[..i + 1]) == AllFds(vs[..i]) + FdsOf(vs[i])
    decreases i
  {
    hide FdsOf;
    assert vs[..i + 1][1..] == vs[1..][..i];
    if i > 0 {
      assert vs[..i][1..] == vs[1..][..i - 1];
      FdsOneMore(vs[1..], i - 1);
    }
  }

  method TryIntoPacket(order: ByteOrder, s: ArgStruct, fields: Env, objectId: Packets.ObjectId)
    returns (packet: Packet)
    requires Writable(s.writes, fields) && s.opcode < 0x1_0000
    ensures fresh(packet) && packet.order == order
    ensures packet.View() == StructInto(order, s, fields, objectId)
  {
    packet := new Packet(order, objectId, s.opcode);
    WriteFields(s.writes, fields, packet);
  }

  method BuildProxyPacket(order: ByteOrder, f: ProxyFunc, objectId: Packets.ObjectId, args: seq<WireValue>)
    returns (packet: Packet)
    requires |f.params| == |args| && Writable(f.writes, Bind(f.params, args)) && f.opcode < 0x1_0000
    ensures fresh(packet) && packet.order == order
    ensures packet.View() == ProxyPacket(order, f, objectId, args)
  {
    packet := new Packet(order, objectId, f.opcode);
    WriteFields(f.writes, Bind(f.params, args), packet);
  }

  // ----- names are harmless -----

  predicate Distinct(names: seq<string>) {
    forall i, j :: 0 <= i < j < |names| ==> names[i] != names[j]
  }

  /** Field and parameter names must be distinct for the generated code to compile. */
  predicate Compiles(p: Procedure) {
    Distinct(NamesOf(p.args))
  }

  lemma {:induction false} BindAt(names: seq<string>, vs: seq<WireValue>, i: nat)
    requires |names| == |vs| && i < |names| && Distinct(names)
    ensures names[i] in Bind(names, vs) && Bind(names, vs)[names[i]] == vs[i]
    decreases i
  {
    if i > 0 {
      assert Distinct(names[1..]);
      BindAt(names[1..], vs[1..], i - 1);
    } else {
      assert names[0] !in names[1..];
    }
  }

  /** Looking names up after binding them gives the values back. */
  lemma PickBind(names: seq<string>, vs: seq<WireValue>)
    requires |names| == |vs| && Distinct(names)
    ensures Pick(Bind(names, vs), names) == vs
  {
    forall i | 0 <= i < |names|
      ensures Pick(Bind(names, vs), names)[i] == vs[i]
    {
      BindAt(names, vs, i);
    }
  }

  function LetNamesSeq(lets: seq<Let>): (ns: seq<string>)
    ensures |ns| == |lets|
  {
    seq(|lets|, i requires 0 <= i < |lets| => lets[i].name)
  }

  function LetFns(lets: seq<Let>): (fns: seq<ReadFn>)
    ensures |fns| == |lets|
  {
    seq(|lets|, i requires 0 <= i < |lets| => lets[i].fn)
  }

  lemma {:induction false} DecodedLength(order: ByteOrder, fns: seq<ReadFn>, payload: seq<byte>, fds: seq<Fd>,
                                         c: Cursor)
    ensures DecodeFrom(order, fns, payload, fds, c).Ok? ==>
              |DecodeFrom(order, fns, payload, fds, c).value| == |fns|
    decreases |fns|
  {
    hide ReadValue;
    if |fns| > 0 {
      var r := ReadValue(order, fns[0], payload, fds, c);
      DecodedLength(order, fns[1..], payload, fds, r.cursor);
    }
  }

  function Bound(env: Env, names: seq<string>, decoded: Result<seq<WireValue>, Error>): Result<Env, Error>
    requires decoded.Ok? ==> |decoded.value| == |names|
  {
    match decoded
    case Err(e) => Err(e)
    case Ok(vs) => Ok(env + Bind(names, vs))
  }

  lemma BoundStep(env: Env, names: seq<string>, v: WireValue, vs: seq<WireValue>)
    requires |names| == |vs| + 1
    ensures env + Bind(names, [v] + vs) == env[names[0] := v] + Bind(names[1..], vs)
  {
    assert ([v] + vs)[1..] == vs;
    var tail := Bind(names[1..], vs);
    assert env + (map[names[0] := v] + tail) == env[names[0] := v] + tail;
  }

  /** Running the statements and the final check is positional decoding followed by binding. */
  lemma {:induction false} RunLetsIsDecode(order: ByteOrder, lets: seq<Let>, p: PacketData, c: Cursor, env: Env)
    ensures DecodeFrom(order, LetFns(lets), p.payload, p.fds, c).Ok? ==>
              |DecodeFrom(order, LetFns(lets), p.payload, p.fds, c).value| == |lets|
    ensures Finished(p, RunLets(order, lets, p, c, env))
         == Bound(env, LetNamesSeq(lets), DecodeFrom(order, LetFns(lets), p.payload, p.fds, c))
    decreases |lets|
  {
    hide ReadValue, Finish, Bind;
    DecodedLength(order, LetFns(lets), p.payload, p.fds, c);
    if |lets| > 0 {
      assert LetFns(lets)[1..] == LetFns(lets[1..]) && LetNamesSeq(lets)[1..] == LetNamesSeq(lets[1..]);
      var r := ReadValue(order, lets[0].fn, p.payload, p.fds, c);
      if r.result.Ok? {
        RunLetsIsDecode(order, lets[1..], p, r.cursor, env[lets[0].name := r.result.value]);
        var rest := DecodeFrom(order, LetFns(lets[1..]), p.payload, p.fds, r.cursor);
        if rest.Ok? {
          BoundStep(env, LetNamesSeq(lets), r.result.value, rest.value);
        }
      }
    } else {
      BindNothing(env);
    }
  }

  lemma BindNothing(env: Env)
    ensures env + Bind([], []) == env
  {
  }
}
