/** Theorems about everything the compiler emits, for every interface description. */
module FormsAgree {
  import opened Numbers
  import opened Outcomes
  import opened Packets
  import opened Codec
  import opened Generator
  import opened GeneratedCode

  /** The arguments have the declared types of the fields. */
  predicate TypedArgs(args: seq<Arg>, vs: seq<WireValue>) {
    |vs| == |args| && forall i :: 0 <= i < |args| ==> Inhabits(vs[i], FieldOf(args[i]).fieldType)
  }

  predicate EventsCompile(events: seq<Procedure>) {
    forall i :: 0 <= i < |events| ==> Compiles(events[i])
  }

  lemma LetsShape(args: seq<Arg>)
    ensures LetFns(LetsOf(args)) == ReadsOf(args)
    ensures LetNamesSeq(LetsOf(args)) == NamesOf(args)
    ensures forall n :: n in NamesOf(args) <==> n in LetNames(LetsOf(args))
  {
    forall n | n in NamesOf(args)
      ensures n in LetNames(LetsOf(args))
    {
      var i :| 0 <= i < |args| && NamesOf(args)[i] == n;
      assert LetsOf(args)[i] in LetsOf(args);
    }
    forall n | n in LetNames(LetsOf(args))
      ensures n in NamesOf(args)
    {
      var i :| 0 <= i < |args| && LetsOf(args)[i].name == n;
      assert NamesOf(args)[i] == n;
    }
  }

  lemma TypedForReads(args: seq<Arg>, vs: seq<WireValue>)
    ensures TypedArgs(args, vs) <==> Typed(ReadsOf(args), vs)
  {
    if |args| == |vs| {
      forall i | 0 <= i < |args|
        ensures Inhabits(vs[i], FieldOf(args[i]).fieldType) <==> Yields(ReadsOf(args)[i], vs[i])
      {
        SelectorsAgree(args[i].argType, args[i].interfaceName.Some?, vs[i]);
      }
    }
  }

  /** The decoder a procedure gets reads positionally and binds by name. */
  lemma DecoderIsDecode(order: ByteOrder, args: seq<Arg>, p: PacketData)
    ensures var d := Decode(order, ReadsOf(args), p.payload, p.fds);
            (d.Err? ==> RunDecoder(order, LetsOf(args), p) == Err(d.error)) &&
            (d.Ok? ==> |d.value| == |args| && RunDecoder(order, LetsOf(args), p) == Ok(Bind(NamesOf(args), d.value)))
  {
    hide ReadValue, Bind, Finished, RunLets, DecodeFrom;
    LetsShape(args);
    RunLetsIsDecode(order, LetsOf(args), p, Cursor(0, 0), map[]);
    var d := Decode(order, ReadsOf(args), p.payload, p.fds);
    if d.Ok? {
      EmptyPlus(Bind(NamesOf(args), d.value));
    }
  }

  lemma EmptyPlus(env: Env)
    ensures map[] + env == env
  {
  }

  lemma StructIsDecode(order: ByteOrder, kind: Kind, index: nat, proc: Procedure, p: PacketData)
    ensures var d := Decode(order, ReadsOf(proc.args), p.payload, p.fds);
            var s := StructFor(kind, index, proc);
            (d.Err? ==> StructFrom(order, s, p) == Err(d.error)) &&
            (d.Ok? ==> |d.value| == |proc.args| && StructFrom(order, s, p) == Ok(Bind(NamesOf(proc.args), d.value)))
  {
    hide ReadValue, RunDecoder, Decode;
    DecoderIsDecode(order, proc.args, p);
    var d := Decode(order, ReadsOf(proc.args), p.payload, p.fds);
    if d.Ok? {
      var env := Bind(NamesOf(proc.args), d.value);
      assert Restrict(env, NamesOf(proc.args)) == env;
    }
  }

  // ----- dispatcher and argument struct -----

  lemma {:induction false} DispatchFinds(order: ByteOrder, arms: seq<MatchArm>, p: PacketData, base: nat)
    requires forall i :: 0 <= i < |arms| ==> arms[i].opcode == base + i && ArmCompiles(arms[i])
    requires p.opcode >= base
    ensures Dispatch(order, arms, p)
         == if p.opcode - base < |arms| then RunArm(order, arms[p.opcode - base], p) else UnknownEvent
    decreases |arms|
  {
    hide RunArm;
    if |arms| > 0 && arms[0].opcode != p.opcode {
      DispatchFinds(order, arms[1..], p, base + 1);
    }
  }

  lemma ArmsCompile(events: seq<Procedure>)
    ensures forall i :: 0 <= i < |events| ==> ArmCompiles(ArmsFor(events)[i])
  {
    forall i | 0 <= i < |events|
      ensures ArmCompiles(ArmsFor(events)[i])
    {
      LetsShape(events[i].args);
    }
  }

  /** For every packet, `handle_event` rejects what `try_from_packet` of the event with that opcode
      rejects, with the same error, and otherwise calls that event's handler with exactly the fields
      `try_from_packet` returns; opcodes without an event go to the catch-all. */
  lemma EventFormsAgree(order: ByteOrder, events: seq<Procedure>, p: PacketData)
    ensures forall i :: 0 <= i < |events| ==> ArmCompiles(ArmsFor(events)[i])
    ensures p.opcode >= |events| ==> Dispatch(order, ArmsFor(events), p) == UnknownEvent
    ensures p.opcode < |events| ==>
              var event := events[p.opcode];
              match StructFrom(order, StructFor(Event, p.opcode, event), p)
              case Err(e) => Dispatch(order, ArmsFor(events), p) == Rejected(e)
              case Ok(fields) =>
                (forall n :: n in fields <==> n in NamesOf(event.args)) &&
                Dispatch(order, ArmsFor(events), p) == Called("handle_" + event.name, Pick(fields, NamesOf(event.args)))
  {
    hide RunDecoder;
    ArmsCompile(events);
    DispatchFinds(order, ArmsFor(events), p, 0);
    if p.opcode < |events| {
      var event := events[p.opcode];
      LetsShape(event.args);
      var env := RunDecoder(order, LetsOf(event.args), p);
      if env.Ok? {
        assert Restrict(env.value, NamesOf(event.args)) == env.value;
      }
    }
  }

  // ----- proxy and argument struct -----

  lemma WritableBind(args: seq<Arg>, vs: seq<WireValue>)
    requires Distinct(NamesOf(args)) && TypedArgs(args, vs) && AllEncodable(vs)
    ensures Writable(WritesOf(args), Bind(NamesOf(args), vs))
    ensures Written(WritesOf(args), Bind(NamesOf(args), vs)) == vs
  {
    var env := Bind(NamesOf(args), vs);
    forall i | 0 <= i < |args|
      ensures WritesOf(args)[i].name in env && env[WritesOf(args)[i].name] == vs[i]
      ensures Accepts(WritesOf(args)[i].fn, vs[i])
    {
      BindAt(NamesOf(args), vs, i);
      assert WritesOf(args)[i].name == NamesOf(args)[i];
      SelectorsAgree(args[i].argType, args[i].interfaceName.Some?, vs[i]);
    }
  }

  /** A proxy call builds the packet that `try_into_packet` builds from the same arguments, and that
      packet carries the arguments' encoding under the procedure's position as opcode. */
  lemma RequestFormsAgree(order: ByteOrder, index: u16, req: Procedure, objectId: Packets.ObjectId, vs: seq<WireValue>)
    requires Compiles(req) && TypedArgs(req.args, vs) && AllEncodable(vs)
    ensures Writable(WritesOf(req.args), Bind(NamesOf(req.args), vs))
    ensures ProxyPacket(order, ProxyFor(index, req), objectId, vs)
         == StructInto(order, StructFor(Request, index, req), Bind(NamesOf(req.args), vs), objectId)
         == PacketData(objectId, index, EncodeAll(order, vs), AllFds(vs))
  {
    WritableBind(req.args, vs);
  }

  // ----- round trips through the generated forms -----

  /** `try_from_packet` undoes `try_into_packet`, for every schema and every well-typed argument list. */
  lemma StructRoundTrip(order: ByteOrder, kind: Kind, index: u16, proc: Procedure, objectId: Packets.ObjectId,
                        vs: seq<WireValue>)
    requires Compiles(proc) && TypedArgs(proc.args, vs) && AllEncodable(vs)
    ensures var fields := Bind(NamesOf(proc.args), vs);
            var s := StructFor(kind, index, proc);
            Writable(s.writes, fields) && StructFrom(order, s, StructInto(order, s, fields, objectId)) == Ok(fields)
  {
    hide EncodeAll, ReadValue, Decode;
    WritableBind(proc.args, vs);
    TypedForReads(proc.args, vs);
    RoundTrip(order, ReadsOf(proc.args), vs);
    StructIsDecode(order, kind, index, proc, PacketData(objectId, index, EncodeAll(order, vs), AllFds(vs)));
  }

  /** What a peer's `try_into_packet` writes for an event reaches that event's handler unchanged. */
  lemma HandlerReceives(order: ByteOrder, events: seq<Procedure>, k: u16, objectId: Packets.ObjectId,
                        vs: seq<WireValue>)
    requires EventsCompile(events) && k < |events|
    requires TypedArgs(events[k].args, vs) && AllEncodable(vs)
    ensures var fields := Bind(NamesOf(events[k].args), vs);
            && Writable(WritesOf(events[k].args), fields)
            && (forall i :: 0 <= i < |events| ==> ArmCompiles(ArmsFor(events)[i]))
            && Dispatch(order, ArmsFor(events), StructInto(order, StructFor(Event, k, events[k]), fields, objectId))
               == Called("handle_" + events[k].name, vs)
  {
    hide StructFrom, Dispatch;
    var fields := Bind(NamesOf(events[k].args), vs);
    StructRoundTrip(order, Event, k, events[k], objectId, vs);
    EventFormsAgree(order, events, StructInto(order, StructFor(Event, k, events[k]), fields, objectId));
    PickBind(NamesOf(events[k].args), vs);
  }

  /** If `try_from_packet` accepts a packet, `try_into_packet` of its result has the same length and
      descriptors and the same bytes except that padding is cleared. */
  lemma StructReencode(order: ByteOrder, kind: Kind, index: u16, proc: Procedure, p: PacketData)
    requires Compiles(proc) && StructFrom(order, StructFor(kind, index, proc), p).Ok?
    ensures var s := StructFor(kind, index, proc);
            var fields := StructFrom(order, s, p).value;
            && Writable(s.writes, fields)
            && var q := StructInto(order, s, fields, p.objectId);
               var mask := MaskAll(Written(s.writes, fields));
               && q.fds == p.fds && |q.payload| == |p.payload| == |mask|
               && forall i :: 0 <= i < |p.payload| ==> q.payload[i] == if mask[i] then p.payload[i] else 0
  {
    hide EncodeAll, ReadValue, StructFrom, Decode, MaskAll;
    StructIsDecode(order, kind, index, proc, p);
    var vs := Decode(order, ReadsOf(proc.args), p.payload, p.fds).value;
    DecodeIff(order, ReadsOf(proc.args), p.payload, p.fds, vs);
    TypedForReads(proc.args, vs);
    WritableBind(proc.args, vs);
    Reencode(order, ReadsOf(proc.args), p.payload, p.fds);
  }

  /** The generated decoder meets the underflow of `read_str` exactly on packets that begin with some of
      the arguments and have a zero length word where the next argument's string should start. */
  lemma StructUnderflowIff(order: ByteOrder, kind: Kind, index: nat, proc: Procedure, p: PacketData)
    ensures StructFrom(order, StructFor(kind, index, proc), p) == Err(StringLengthUnderflow)
       <==> exists vs :: UnderflowAfter(order, ReadsOf(proc.args), vs, p.payload, p.fds, Cursor(0, 0))
  {
    hide StructFrom, Decode, UnderflowAfter;
    StructIsDecode(order, kind, index, proc, p);
    DecodeUnderflowIff(order, ReadsOf(proc.args), p.payload, p.fds);
  }

  // ----- opcodes -----

  lemma StructAt(i: Interface, k: nat)
    requires k < |i.requests| + |i.events|
    ensures |CodeFor(i).argStructs| == |i.requests| + |i.events|
    ensures CodeFor(i).argStructs[k]
         == if k < |i.requests| then StructFor(Request, k, i.requests[k])
            else StructFor(Event, k - |i.requests|, i.events[k - |i.requests|])
  {
    hide StructFor;
  }

  /** Proxy opcodes are the `OPCODE` constants of the request structs. */
  lemma RequestOpcodes(i: Interface, k: nat)
    requires k < |i.requests|
    ensures var code := CodeFor(i);
            && code.requestProxy.Some? && |code.requestProxy.value| == |i.requests|
            && |code.argStructs| == |i.requests| + |i.events|
            && code.argStructs[k].kind == Request && code.argStructs[k].procedure == i.requests[k].name
            && code.argStructs[k].opcode == code.requestProxy.value[k].opcode
  {
    hide LetsOf, WritesOf, FieldsOf, NamesOf;
    StructAt(i, k);
  }

  /** Match-arm literals are the `OPCODE` constants of the event structs. */
  lemma EventOpcodes(i: Interface, k: nat)
    requires k < |i.events|
    ensures var code := CodeFor(i);
            && code.eventHandler.Some? && |code.eventHandler.value| == |i.events|
            && |code.argStructs| == |i.requests| + |i.events|
            && code.argStructs[|i.requests| + k].kind == Event
            && code.argStructs[|i.requests| + k].procedure == i.events[k].name
            && code.argStructs[|i.requests| + k].opcode == code.eventHandler.value[k].opcode
  {
    hide LetsOf, WritesOf, FieldsOf, NamesOf;
    StructAt(i, |i.requests| + k);
  }

  /** Within one direction no two argument structs share an opcode. */
  lemma OpcodesDistinct(i: Interface, k: nat, l: nat)
    requires k < l < |CodeFor(i).argStructs|
    requires CodeFor(i).argStructs[k].kind == CodeFor(i).argStructs[l].kind
    ensures CodeFor(i).argStructs[k].opcode != CodeFor(i).argStructs[l].opcode
  {
    hide LetsOf, WritesOf, FieldsOf, NamesOf;
    StructAt(i, k);
    StructAt(i, l);
  }

  // ----- declarations -----

  /** The values of each argument type, spelled out. */
  predicate HasType(v: WireValue, t: ArgType, known: bool) {
    match t
    case Uint => v.UintV?
    case Int => v.IntV?
    case Fixed => v.FixedV?
    case String => v.StrV?
    case ObjectId => v.ObjectV?
    case NewId => if known then v.NewIdV? else v.NewObjectV?
    case Array => v.ArrayV?
    case FileDescriptor => v.FdV?
  }

  /** A field declared for an argument holds exactly the values of the argument's type. */
  lemma FieldHolds(a: Arg, v: WireValue)
    ensures Inhabits(v, FieldOf(a).fieldType) <==> HasType(v, a.argType, a.interfaceName.Some?)
  {
  }

  function FieldNames(fields: seq<Field>): set<string> {
    set f | f in fields :: f.name
  }

  /** The emitted struct declares, argument by argument, a field of that name and type; its reads, its
      struct literal and its writes name exactly the declared fields. */
  lemma StructDeclares(kind: Kind, index: nat, proc: Procedure, k: nat)
    ensures var s := StructFor(kind, index, proc);
            && |s.fields| == |s.fieldNames| == |s.decoders| == |s.writes| == |proc.args|
            && (k < |proc.args| ==>
                  && s.fields[k].name == s.fieldNames[k] == s.decoders[k].name == s.writes[k].name == proc.args[k].name
                  && forall v :: Inhabits(v, s.fields[k].fieldType)
                             <==> HasType(v, proc.args[k].argType, proc.args[k].interfaceName.Some?))
  {
    if k < |proc.args| {
      forall v
        ensures Inhabits(v, FieldOf(proc.args[k]).fieldType)
           <==> HasType(v, proc.args[k].argType, proc.args[k].interfaceName.Some?)
      {
        FieldHolds(proc.args[k], v);
      }
    }
  }

  /** The value of every declared field has the declared type. */
  predicate FieldsHold(fields: seq<Field>, env: Env) {
    && env.Keys == FieldNames(fields)
    && forall k :: 0 <= k < |fields| ==> fields[k].name in env && Inhabits(env[fields[k].name], fields[k].fieldType)
  }

  /** Whatever `try_from_packet` returns fills exactly the declared fields, with values of their types. */
  lemma DecodedFillsFields(order: ByteOrder, kind: Kind, index: nat, proc: Procedure, p: PacketData)
    requires Compiles(proc)
    ensures var s := StructFor(kind, index, proc);
            StructFrom(order, s, p).Ok? ==> FieldsHold(s.fields, StructFrom(order, s, p).value)
  {
    hide StructFrom, Decode;
    StructIsDecode(order, kind, index, proc, p);
    var d := Decode(order, ReadsOf(proc.args), p.payload, p.fds);
    if d.Ok? {
      var vs, names, fields := d.value, NamesOf(proc.args), FieldsOf(proc.args);
      DecodeIff(order, ReadsOf(proc.args), p.payload, p.fds, vs);
      TypedForReads(proc.args, vs);
      BoundFillsFields(proc.args, vs);
    }
  }

  lemma BoundFillsFields(args: seq<Arg>, vs: seq<WireValue>)
    requires Distinct(NamesOf(args)) && TypedArgs(args, vs)
    ensures FieldsHold(FieldsOf(args), Bind(NamesOf(args), vs))
  {
    hide Bind, Inhabits;
    var names, fields := NamesOf(args), FieldsOf(args);
    var env := Bind(names, vs);
    forall k | 0 <= k < |fields|
      ensures fields[k].name == names[k] && names[k] in env && env[names[k]] == vs[k]
    {
      BindAt(names, vs, k);
    }
    forall n | n in env.Keys
      ensures n in FieldNames(fields)
    {
      var k :| 0 <= k < |names| && names[k] == n;
      assert fields[k] in fields;
    }
  }

  /** The handler trait and the proxy exist exactly if there is something to put in them; a proxy function
      takes the fields of its request's struct, under the names that its writes use. */
  lemma CodeDeclares(i: Interface, k: nat)
    ensures CodeFor(i).eventHandler.Some? <==> i.events != []
    ensures CodeFor(i).requestProxy.Some? <==> i.requests != []
    ensures k < |i.requests| ==>
              var f := ProxyFor(k, i.requests[k]);
              && CodeFor(i).requestProxy.value[k] == f && f.name == "send_" + i.requests[k].name
              && f.params == StructFor(Request, k, i.requests[k]).fieldNames
              && forall n :: 0 <= n < |f.writes| ==> f.writes[n].name in f.params
  {
    if k < |i.requests| {
      var f := ProxyFor(k, i.requests[k]);
      forall n | 0 <= n < |f.writes|
        ensures f.writes[n].name in f.params
      {
        assert f.params[n] == f.writes[n].name;
      }
    }
  }
}
