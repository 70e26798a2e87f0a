/** The protocol compiler, wlproto/src/output.rs: from an interface description to the decoder,
    dispatcher and proxy it emits. Generated code is modelled as instruction lists over named
    variables; `GeneratedCode` gives them their meaning. */
module Generator {
  import opened Numbers
  import opened Outcomes
  import opened Packets

  // ----- the description (wlproto/src/model.rs) -----

  datatype ArgType = Uint | Int | Fixed | String | ObjectId | NewId | Array | FileDescriptor

  datatype Arg = Arg(name: string, argType: ArgType, interfaceName: Option<string>)

  datatype Procedure = Procedure(name: string, args: seq<Arg>)

  datatype Interface = Interface(name: string, version: nat, requests: seq<Procedure>, events: seq<Procedure>)

  // ----- the generated code -----

  datatype FieldType =
    | U32Field | I32Field | FixedField | StringField | OptionalObjectField | NewObjectIdField
    | NewObjectField | BytesField | FdField

  datatype Let = Let(name: string, fn: ReadFn)

  datatype WriteCall = WriteCall(name: string, fn: WriteFn)

  datatype MatchArm = MatchArm(opcode: nat, decoders: seq<Let>, handler: string, argNames: seq<string>)

  datatype ProxyFunc = ProxyFunc(name: string, params: seq<string>, opcode: nat, writes: seq<WriteCall>)

  datatype Kind = Request | Event

  datatype Field = Field(name: string, fieldType: FieldType)

  datatype ArgStruct = ArgStruct(kind: Kind, procedure: string, opcode: nat, fields: seq<Field>,
                                 decoders: seq<Let>, fieldNames: seq<string>, writes: seq<WriteCall>)

  datatype Code = Code(eventHandler: Option<seq<MatchArm>>, requestProxy: Option<seq<ProxyFunc>>,
                       argStructs: seq<ArgStruct>)

  // ----- the selectors -----

  function IncomingType(t: ArgType, knownInterface: bool): FieldType {
    match t
    case Uint => U32Field
    case Int => I32Field
    case Fixed => FixedField
    case String => StringField
    case ObjectId => OptionalObjectField
    case NewId => if knownInterface then NewObjectIdField else NewObjectField
    case Array => BytesField
    case FileDescriptor => FdField
  }

  function ReadFunc(t: ArgType, knownInterface: bool): ReadFn {
    match t
    case Uint => ReadUint
    case Int => ReadInt
    case Fixed => ReadFixed
    case String => ReadStr
    case ObjectId => ReadObject
    case NewId => if knownInterface then ReadNewIdKnownInterface else ReadNewIdUnknownInterface
    case Array => ReadArray
    case FileDescriptor => ReadFd
  }

  function WriteFunc(t: ArgType, knownInterface: bool): WriteFn {
    match t
    case Uint => PushUint
    case Int => PushInt
    case Fixed => PushFixed
    case String => PushStr
    case ObjectId => PushObject
    case NewId => if knownInterface then PushNewIdKnownInterface else PushNewIdUnknownInterface
    case Array => PushArray
    case FileDescriptor => PushFd
  }

  predicate Inhabits(v: WireValue, t: FieldType) {
    match v
    case UintV(_) => t == U32Field
    case IntV(_) => t == I32Field
    case FixedV(_) => t == FixedField
    case StrV(_) => t == StringField
    case ArrayV(_) => t == BytesField
    case ObjectV(_) => t == OptionalObjectField
    case NewIdV(_) => t == NewObjectIdField
    case NewObjectV(_) => t == NewObjectField
    case FdV(_) => t == FdField
  }

  /** The three selectors fit together: the values of a field's declared type are exactly those its
      read function yields and exactly those its write function takes. */
  lemma SelectorsAgree(t: ArgType, known: bool, v: WireValue)
    ensures Inhabits(v, IncomingType(t, known)) <==> Yields(ReadFunc(t, known), v)
    ensures Inhabits(v, IncomingType(t, known)) <==> Accepts(WriteFunc(t, known), v)
  {
    match t
    case NewId => match v { case NewIdV(_) => case NewObjectV(_) => case _ => }
    case _ =>
  }

  // ----- what is generated -----

  function NameOf(a: Arg): string {
    a.name
  }

  function LetOf(a: Arg): Let {
    Let(a.name, ReadFunc(a.argType, a.interfaceName.Some?))
  }

  function WriteOf(a: Arg): WriteCall {
    WriteCall(a.name, WriteFunc(a.argType, a.interfaceName.Some?))
  }

  function FieldOf(a: Arg): Field {
    Field(a.name, IncomingType(a.argType, a.interfaceName.Some?))
  }

  function NamesOf(args: seq<Arg>): (ns: seq<string>)
    ensures |ns| == |args|
  {
    seq(|args|, i requires 0 <= i < |args| => NameOf(args[i]))
  }

  function LetsOf(args: seq<Arg>): (ls: seq<Let>)
    ensures |ls| == |args|
  {
    seq(|args|, i requires 0 <= i < |args| => LetOf(args[i]))
  }

  function WritesOf(args: seq<Arg>): (ws: seq<WriteCall>)
    ensures |ws| == |args|
  {
    seq(|args|, i requires 0 <= i < |args| => WriteOf(args[i]))
  }

  function FieldsOf(args: seq<Arg>): seq<Field> {
    seq(|args|, i requires 0 <= i < |args| => FieldOf(args[i]))
  }

  function ReadsOf(args: seq<Arg>): (fns: seq<ReadFn>)
    ensures |fns| == |args|
  {
    seq(|args|, i requires 0 <= i < |args| => LetOf(args[i]).fn)
  }

  function ArmFor(index: nat, event: Procedure): MatchArm {
    MatchArm(index, LetsOf(event.args), "handle_" + event.name, NamesOf(event.args))
  }

  function ProxyFor(index: nat, req: Procedure): ProxyFunc {
    ProxyFunc("send_" + req.name, NamesOf(req.args), index, WritesOf(req.args))
  }

  function StructFor(kind: Kind, index: nat, p: Procedure): ArgStruct {
    ArgStruct(kind, p.name, index, FieldsOf(p.args), LetsOf(p.args), NamesOf(p.args), WritesOf(p.args))
  }

  function ArmsFor(events: seq<Procedure>): seq<MatchArm> {
    seq(|events|, i requires 0 <= i < |events| => ArmFor(i, events[i]))
  }

  function ProxiesFor(requests: seq<Procedure>): seq<ProxyFunc> {
    seq(|requests|, i requires 0 <= i < |requests| => ProxyFor(i, requests[i]))
  }

  function StructsFor(kind: Kind, ps: seq<Procedure>): seq<ArgStruct> {
    seq(|ps|, i requires 0 <= i < |ps| => StructFor(kind, i, ps[i]))
  }

  function CodeFor(i: Interface): Code {
    Code(if |i.events| > 0 then Some(ArmsFor(i.events)) else None,
         if |i.requests| > 0 then Some(ProxiesFor(i.requests)) else None,
         StructsFor(Request, i.requests) + StructsFor(Event, i.events))
  }

  // ----- the compiler's loops -----

  lemma OneMoreArg(args: seq<Arg>, i: nat)
    requires i < |args|
    ensures NamesOf(args[..i + 1]) == NamesOf(args[..i]) + [NameOf(args[i])]
    ensures LetsOf(args[..i + 1]) == LetsOf(args[..i]) + [LetOf(args[i])]
    ensures WritesOf(args[..i + 1]) == WritesOf(args[..i]) + [WriteOf(args[i])]
    ensures FieldsOf(args[..i + 1]) == FieldsOf(args[..i]) + [FieldOf(args[i])]
  {
    assert args[..i + 1] == args[..i] + [args[i]];
  }

  method TokenizeEvent(eventIndex: nat, event: Procedure) returns (arm: MatchArm)
    ensures arm == ArmFor(eventIndex, event)
  {
    var argNames: seq<string> := [];
    var argDecoders: seq<Let> := [];
    for i := 0 to |event.args|
      invariant argNames == NamesOf(event.args[..i])
      invariant argDecoders == LetsOf(event.args[..i])
    {
      var arg := event.args[i];
      OneMoreArg(event.args, i);
      argNames := argNames + [arg.name];
      var readFunc := ReadFunc(arg.argType, arg.interfaceName.Some?);
      argDecoders := argDecoders + [Let(arg.name, readFunc)];
    }
    assert event.args[..|event.args|] == event.args;
    arm := MatchArm(eventIndex, argDecoders, "handle_" + event.name, argNames);
  }

  method TokenizeRequest(reqIndex: nat, req: Procedure) returns (f: ProxyFunc)
    ensures f == ProxyFor(reqIndex, req)
  {
    var params: seq<string> := [];
    var calls: seq<WriteCall> := [];
    for i := 0 to |req.args|
      invariant params == NamesOf(req.args[..i])
      invariant calls == WritesOf(req.args[..i])
    {
      var arg := req.args[i];
      OneMoreArg(req.args, i);
      params := params + [arg.name];
      var writeFunc := WriteFunc(arg.argType, arg.interfaceName.Some?);
      calls := calls + [WriteCall(arg.name, writeFunc)];
    }
    assert req.args[..|req.args|] == req.args;
    f := ProxyFunc("send_" + req.name, params, reqIndex, calls);
  }

  method TokenizeArgs(kind: Kind, index: nat, procedure: Procedure) returns (s: ArgStruct)
    ensures s == StructFor(kind, index, procedure)
  {
    var fields: seq<Field> := [];
    var fieldReads: seq<Let> := [];
    var fieldNames: seq<string> := [];
    var fieldWrites: seq<WriteCall> := [];
    for i := 0 to |procedure.args|
      invariant fields == FieldsOf(procedure.args[..i])
      invariant fieldReads == LetsOf(procedure.args[..i])
      invariant fieldNames == NamesOf(procedure.args[..i])
      invariant fieldWrites == WritesOf(procedure.args[..i])
    {
      var arg := procedure.args[i];
      OneMoreArg(procedure.args, i);
      var known := arg.interfaceName.Some?;
      fieldNames := fieldNames + [arg.name];
      fields := fields + [Field(arg.name, IncomingType(arg.argType, known))];
      fieldReads := fieldReads + [Let(arg.name, ReadFunc(arg.argType, known))];
      fieldWrites := fieldWrites + [WriteCall(arg.name, WriteFunc(arg.argType, known))];
    }
    assert procedure.args[..|procedure.args|] == procedure.args;
    s := ArgStruct(kind, procedure.name, index, fields, fieldReads, fieldNames, fieldWrites);
  }

  method TokenizeInterface(i: Interface) returns (code: Code)
    ensures code == CodeFor(i)
  {
    var eventHandler: Option<seq<MatchArm>> := None;
    if |i.events| > 0 {
      var arms: seq<MatchArm> := [];
      for k := 0 to |i.events|
        invariant arms == ArmsFor(i.events)[..k]
      {
        var arm := TokenizeEvent(k, i.events[k]);
        arms := arms + [arm];
      }
      assert arms == ArmsFor(i.events);
      eventHandler := Some(arms);
    }

    var requestProxy: Option<seq<ProxyFunc>> := None;
    if |i.requests| > 0 {
      var funcs: seq<ProxyFunc> := [];
      for k := 0 to |i.requests|
        invariant funcs == ProxiesFor(i.requests)[..k]
      {
        var f := TokenizeRequest(k, i.requests[k]);
        funcs := funcs + [f];
      }
      assert funcs == ProxiesFor(i.requests);
      requestProxy := Some(funcs);
    }

    var structs: seq<ArgStruct> := [];
    for k := 0 to |i.requests|
      invariant structs == StructsFor(Request, i.requests)[..k]
    {
      var s := TokenizeArgs(Request, k, i.requests[k]);
      structs := structs + [s];
    }
    assert structs == StructsFor(Request, i.requests) + StructsFor(Event, i.events)[..0];
    for k := 0 to |i.events|
      invariant structs == StructsFor(Request, i.requests) + StructsFor(Event, i.events)[..k]
    {
      var s := TokenizeArgs(Event, k, i.events[k]);
      structs := structs + [s];
    }
    assert StructsFor(Event, i.events)[..|i.events|] == StructsFor(Event, i.events);
    code := Code(eventHandler, requestProxy, structs);
  }
}
