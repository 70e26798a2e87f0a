# One True Pairing: a verified model

One True Pairing is a tray application that computes time-based one-time codes and offers them on the
Wayland clipboard. It brings its own Wayland client library (`whale-land`) and the compiler that
generates that library's protocol code (`wlproto`). This project models the parts where bytes, order
and state matter, and proves what they are for.

**The wire, from schema to stream.** `Packets` and `PacketBuffer` are the packet buffer and its cursor:
two channels (bytes and file descriptors), 4-byte alignment, length-prefixed NUL-terminated strings.
`Codec` proves for every list of read functions exactly which bytes and descriptors are accepted and
what is returned (`Codec.DecodeIff`); the round trip and the re-encoding theorem follow. `Generator` is
the protocol compiler: from an interface description to instruction lists. `GeneratedCode` gives these
their meaning and executes them on the buffer classes; `FormsAgree` proves for every interface that
dispatcher, proxy and argument struct agree. `Framing` puts packets on a byte stream through a socket
that moves any nonzero number of bytes per call; `Interleaving` lets any number of senders and receivers
do so at once and proves order, integrity, conservation and progress over all schedules.

**The clipboard owner.** `Clipboard` says what each event does to the state, `ClipboardOwning` are the
dispatch functions as methods on a real connection (generated code, packet buffer and framing included).
`ClipboardWire` is the other end: a compositor that knows the interfaces reads the bytes and gets
exactly the requests made.
`ClipboardProtocol` has an independent observer of the wl_registry and ext-data-control-v1 rules and
proves in which runs the program obeys them: in all, except exactly those in which something is copied
after the compositor declared the data device finished. `ClipboardWitness` shows such a run.
`ClipboardCell` proves each source's whole life and that the live source serves the value copied last.

**From otpauth URL to code.** `UrlCodec` (percent decoding as an unambiguous token grammar), `Base32`
(section 6 of RFC 4648), `OtpauthUrl`, `OtpauthRoundTrip` (parsing inverts printing; a parameter record
has a URL exactly if it is representable), `OtpauthGrammar` (which URLs parse to which record, exactly),
`Decimal` and `Totp` (section 5.3 of RFC 4226, section 4.2 of RFC 6238, zero-padded printing).

**Key agreement and menu.** `DiffieHellman` proves that both sides derive the same secret from each
other's bytes, leading zeros stripped or not. `Menu` proves exactly when clicking an item selects the path
stored under its label.

Conventions. Strings are their UTF-8 bytes. Machine integers are bounded mathematical integers;
`x << k` is multiplication by a power of two (cut to the machine's width where it matters), `x >> k`
division, `x & (2^k - 1)` the remainder, and `|` the bitwise `Numbers.BitOr`. The byte order of
`to_ne_bytes` is a parameter: everything holds for both. `usize` has 64 bits, so no sum of lengths
overflows. `Result` and `Option` stand for the source's error returns; a precondition stands for an
assertion that the source makes of its callers.

Findings about the code.

- The receiver keeps only the low eight bits of the opcode (whale-land/src/connection.rs:90), the sender
  writes sixteen. A packet comes back unchanged exactly if its opcode is below 256
  (`Framing.RoundTripIff`).
- Descriptors that do not ride on the bytes of a receive's first read are lost
  (`Framing.DescriptorsKeptIff`). Packets sent by `send_packet` are safe from this.
- A string of wire length 0 makes `read_str` subtract 1 from 0 (whale-land/src/packet.rs:208); the model
  gives it an error of its own. A generated decoder gets there exactly on packets that begin with some of
  the arguments and have a zero word where the next one's string should start
  (`FormsAgree.StructUnderflowIff`), for example on a `send` event with an empty MIME type
  (`ClipboardWitness.EmptyMimeTypeUnderflows`).
- After `ext_data_control_device_v1.finished` a copy still selects a source on the dead device
  (`ClipboardProtocol.ObeysProtocolIff`, `ClipboardWitness.CopyAfterFinishedBreaksProtocol`).
- What is copied before seat and clipboard manager are both known is stored but never offered until the
  next copy (`ClipboardCell.CopyPublishesIff`, `ClipboardCell.PacketsNeverPublish`).
- After 2^32 - 2 object IDs the counter hands out the display's own ID (`Framing.IdCountsUpIff`); runs
  are judged below that number.
- A `send` event that arrives after its source was destroyed or cancelled leaves its descriptor open
  (`ClipboardCell.ClosesWhatItAnswers`, `ClipboardCell.LatePacketsChangeNothing`).
- With 0x7FFFFFFD secrets or more, menu IDs collide with the reserved ones (`Menu.IdsDistinctIff`,
  `Menu.ClickSelectsIff`).
- A secret named `E_xit` or `_Update menu` has the label of a fixed menu item; clicking that item exits or
  updates instead of selecting the secret (`Menu.SecretNamedExit`). Labels decide exactly if no secret
  bears one of these names (`Menu.NamesDecideIff`).
- A click on menu ID -0x80000000 subtracts 1 from the least 32-bit integer; no item has this ID
  (`Menu.ClickOverflowsIff`).

## Model

| member | source | states |
|---|---|---|
| `Packets.WordIsDigits` | whale-land/src/packet.rs:50-58 | A pushed 32-bit word is the four base-256 digits of the number, in either byte order. |
| `Packets.U32Bytes` | whale-land/src/packet.rs:167-172 | Reading a word gives back the number pushed. |
| `Packets.SizeAndOpcodeIsSum` | whale-land/src/packet.rs:123-127 | The shifted size and the opcode share no bits: the header word is their sum and fits 32 bits. |
| `Packets.SerializesIff` | whale-land/src/packet.rs:114-134 | A packet can be written if and only if its payload has at most 65527 bytes; then the bytes are the target, size and opcode in two halves of a word, and the payload. |
| `Utf8.ValidUtf8Iff` | whale-land/src/packet.rs:216-217 | Well-formed bytes, as `from_utf8` decides, are exactly the encodings of sequences of Unicode scalar values. |
| `PacketBuffer.Packet.constructor` | whale-land/src/packet.rs:17-28 | A new packet is empty in both channels. |
| `PacketBuffer.Packet.FromExisting` | whale-land/src/packet.rs:30-42 | Takes over object ID, opcode, payload and descriptors. |
| `PacketBuffer.Packet.PushUint` | whale-land/src/packet.rs:50-53 | Appends exactly the encoding of the number; nothing else changes. |
| `PacketBuffer.Packet.PushInt` | whale-land/src/packet.rs:55-58 | Appends the two's complement encoding. |
| `PacketBuffer.Packet.PushFixed` | whale-land/src/packet.rs:60-63 | Appends the encoding of the inner value. |
| `PacketBuffer.Packet.PushStr` | whale-land/src/packet.rs:65-76 | Appends length with NUL, text, NUL and zero padding to a multiple of 4. |
| `PacketBuffer.Packet.PushArray` | whale-land/src/packet.rs:78-86 | Appends length, bytes and zero padding to a multiple of 4. |
| `PacketBuffer.Packet.PushObject` | whale-land/src/packet.rs:88-93 | Appends the object ID, or 0 for none. |
| `PacketBuffer.Packet.PushNewIdKnownInterface` | whale-land/src/packet.rs:95-97 | Appends the new ID. |
| `PacketBuffer.Packet.PushNewIdUnknownInterface` | whale-land/src/packet.rs:99-103 | Appends interface name, version and new ID, in this order. |
| `PacketBuffer.Packet.PushFd` | whale-land/src/packet.rs:105-107 | Appends to the descriptor channel only. |
| `PacketBuffer.Packet.ClearPayload` | whale-land/src/packet.rs:109-112 | Empties both channels. |
| `PacketBuffer.Packet.Serialize` | whale-land/src/packet.rs:114-134 | Filling the buffer yields ID, size and opcode word and payload, or the too-long error above 65535 bytes. |
| `PacketBuffer.Packet.Read` | whale-land/src/packet.rs:138-144 | A reader of this packet at the start of both channels. |
| `PacketBuffer.PacketReader.PeekBytes` | whale-land/src/packet.rs:153-165 | Copies without moving, or reports out of bounds and leaves the buffer alone. |
| `PacketBuffer.PacketReader.ReadUint` | whale-land/src/packet.rs:167-172 | Reads a word and moves by 4, or fails without moving; keeps the cursor aligned and inside both channels. |
| `PacketBuffer.PacketReader.ReadInt` | whale-land/src/packet.rs:174-186 | The same for signed words and the inner value of fixed-point numbers. |
| `PacketBuffer.PacketReader.ReadRun` | whale-land/src/packet.rs:221-241 | Reads a length-prefixed run and skips its padding, or fails without moving. |
| `PacketBuffer.PacketReader.ReadStr` | whale-land/src/packet.rs:188-219 | The text before a NUL that is both first and last, if valid UTF-8; otherwise the error and the position the source leaves. |
| `PacketBuffer.PacketReader.ReadObject` | whale-land/src/packet.rs:243-246 | 0 is no object. |
| `PacketBuffer.PacketReader.ReadNewIdKnownInterface` | whale-land/src/packet.rs:248-254 | 0 is an error. |
| `PacketBuffer.PacketReader.ReadNewIdUnknownInterface` | whale-land/src/packet.rs:256-269 | Name, version and ID in order; the first failure wins. |
| `PacketBuffer.PacketReader.ReadFd` | whale-land/src/packet.rs:271-279 | The next descriptor; the byte cursor does not move. |
| `PacketBuffer.PacketReader.Finish` | whale-land/src/packet.rs:281-295 | Succeeds exactly if both channels are consumed exactly. |
| `Codec.TakeRunIff` | whale-land/src/packet.rs:221-241 | A run is read exactly if its length word and content are there, whatever the padding bytes are. |
| `Codec.TakeStrIff` | whale-land/src/packet.rs:188-219 | A string is read exactly if the bytes are its encoding up to padding; in particular it has no NUL and is valid UTF-8. |
| `Codec.EncodingShape` | whale-land/src/packet.rs:50-107 | Every encoding is a whole number of words, with zeros exactly at padding positions. |
| `Codec.WireFormat` | whale-land/src/packet.rs:50-107 | Every type in terms of simpler ones: signed and fixed words are two's complement, the null object is 0, a string is the array of its bytes and a NUL, an array is length, bytes and zeros, a new object is three arguments, descriptors have no bytes. |
| `Codec.TakeStrFails` | whale-land/src/packet.rs:188-219 | A string is refused exactly because it does not fit, has no bytes, has a NUL other than its last byte, or is not text; with which error. |
| `Codec.ReadValueIff` | whale-land/src/packet.rs:153-279 | Each read function accepts exactly the encodings, up to padding, of the values of its type. |
| `Codec.DecodeFromIff` | whale-land/src/packet.rs:147-295 | From any cursor: reads and final check succeed exactly if the rest of both channels encodes the result up to padding. |
| `Codec.DecodeIff` | wlproto/src/output.rs:312-325 | Both directions at once, for every signature: decoding yields these arguments if and only if descriptors match and bytes are their encoding up to padding. |
| `Codec.RoundTrip` | wlproto/src/output.rs:312-325 | Decoding an encoding succeeds, passes the completeness check and returns the arguments, descriptors anywhere among them. |
| `Codec.Reencode` | whale-land/src/packet.rs:153-295 | Encoding what was decoded gives the same length, descriptors and bytes, with padding cleared. |
| `Codec.ReadValueUnderflowIff` | whale-land/src/packet.rs:206-214 | A read function subtracts 1 from 0 exactly if it starts with a string and meets a zero length word. |
| `Codec.DecodeUnderflowIff` | whale-land/src/packet.rs:188-214 | For every signature: decoding underflows exactly on packets that begin with the encoding, up to padding, of some arguments and have a zero word where the next one's string should start. |
| `Codec.EncodingInjective` | whale-land/src/packet.rs:50-107 | Under one signature, two argument lists with the same packet are equal. |
| `Generator.SelectorsAgree` | wlproto/src/output.rs:350-408 | The three type selectors fit: a field's type holds exactly what its read function yields and its write function takes. |
| `Generator.TokenizeEvent` | wlproto/src/output.rs:97-147 | The loop over an event's arguments emits its match arm. |
| `Generator.TokenizeRequest` | wlproto/src/output.rs:215-246 | The loop over a request's arguments emits its proxy function. |
| `Generator.TokenizeArgs` | wlproto/src/output.rs:279-341 | The loop over a procedure's arguments emits its struct: fields, reads, names and writes in order. |
| `Generator.TokenizeInterface` | wlproto/src/output.rs:80-348 | The loops over a description emit handler, proxy and structs, handler and proxy only if there is something to put in them. |
| `GeneratedCode.DecodeLets` | wlproto/src/output.rs:136-138 | Running the generated reads on a real reader is the meaning of the let statements and the final check. |
| `GeneratedCode.TryFromPacket` | wlproto/src/output.rs:312-319 | Executing `try_from_packet` on a packet object gives the struct of its meaning, or the first error. |
| `GeneratedCode.HandleEvent` | wlproto/src/output.rs:149-186 | Executing `handle_event` runs the first arm with the packet's opcode. |
| `GeneratedCode.WriteFields` | wlproto/src/output.rs:302-323 | The generated writes append the encodings of the fields in order, to both channels. |
| `GeneratedCode.TryIntoPacket` | wlproto/src/output.rs:321-325 | Executing `try_into_packet` builds the packet of its meaning. |
| `GeneratedCode.BuildProxyPacket` | wlproto/src/output.rs:236-245 | The proxy function builds the packet of its meaning before sending it. |
| `GeneratedCode.RunLetsIsDecode` | wlproto/src/output.rs:299-319 | Reading into named variables, shadowing included, is positional decoding followed by binding. |
| `FormsAgree.EventFormsAgree` | wlproto/src/output.rs:97-147 | For every packet the dispatcher rejects what the struct decoder rejects, with the same error, and else calls the handler with exactly its fields; other opcodes go to the catch-all. |
| `FormsAgree.RequestFormsAgree` | wlproto/src/output.rs:215-246 | A proxy call and `try_into_packet` build the same packet from the same arguments. |
| `FormsAgree.StructRoundTrip` | wlproto/src/output.rs:279-341 | `try_from_packet` undoes `try_into_packet`, for every procedure with distinct names and every well-typed argument list. |
| `FormsAgree.HandlerReceives` | wlproto/src/output.rs:134-146 | What a peer's `try_into_packet` writes reaches the event's handler unchanged. |
| `FormsAgree.StructReencode` | wlproto/src/output.rs:279-341 | If `try_from_packet` accepts a packet, `try_into_packet` reproduces it with padding cleared. |
| `FormsAgree.StructUnderflowIff` | wlproto/src/output.rs:312-319 | Which packets make a generated `try_from_packet` underflow in `read_str`, for every procedure. |
| `FormsAgree.FieldHolds` | wlproto/src/output.rs:350-363 | A field declared for an argument holds exactly the values of the argument's type, type by type. |
| `FormsAgree.StructDeclares` | wlproto/src/output.rs:295-307 | The emitted struct declares one field per argument, of its name and type; reads, struct literal and writes name exactly the declared fields. |
| `FormsAgree.DecodedFillsFields` | wlproto/src/output.rs:299-319 | Whatever `try_from_packet` returns fills exactly the declared fields with values of their types. |
| `FormsAgree.CodeDeclares` | wlproto/src/output.rs:149-275 | Handler and proxy exist if and only if there are events and requests; a proxy function is named after its request and takes the fields of its struct, under the names its writes use. |
| `FormsAgree.RequestOpcodes` | wlproto/src/output.rs:215-243 | Proxy opcodes are the `OPCODE` constants of the request structs. |
| `FormsAgree.EventOpcodes` | wlproto/src/output.rs:97-147 | Match-arm literals are the `OPCODE` constants of the event structs. |
| `FormsAgree.OpcodesDistinct` | wlproto/src/output.rs:279-310 | No two structs of one direction share an opcode. |
| `Framing.Socket.SendWithFds` | socket-fd-ext/src/lib.rs:101-183 | Writes a nonempty beginning of the data, the descriptors riding on its first byte. |
| `Framing.Socket.Send` | socket-fd-ext/src/lib.rs:83-99 | Writes a nonempty beginning of the data. |
| `Framing.Socket.Recv` | socket-fd-ext/src/lib.rs:185-203 | Reads at least one byte into the buffer; descriptors are dropped. |
| `Framing.Socket.RecvWithFds` | socket-fd-ext/src/lib.rs:205-289 | Reads at least one byte and returns the descriptors riding on what was read. |
| `Framing.Connection.SendPacket` | whale-land/src/connection.rs:48-68 | Whatever the socket does per call, exactly one frame is written; an unserializable packet writes nothing. |
| `Framing.Connection.FillBuffer` | whale-land/src/connection.rs:80-85 | The loop fills the buffer with exactly the next bytes and ends, by the bytes still missing. |
| `Framing.Connection.RecvPacket` | whale-land/src/connection.rs:70-122 | For every stream and fragmentation: the packet or header error and where the stream is left. |
| `Framing.Connection.GetAndIncrementNextObjectId` | whale-land/src/connection.rs:124-131 | Hands out the counter, skipping 0 and wrapping at 32 bits. |
| `Framing.IdCountsUpIff` | whale-land/src/connection.rs:124-131 | The k-th ID is k + 2 exactly before the wrap-around; the one after is 1. |
| `Framing.FrameHeader` | whale-land/src/connection.rs:87-99 | The header written by `serialize` parses back to ID, size and the opcode's low byte, without error. |
| `Framing.FrameReceived` | whale-land/src/connection.rs:70-122 | A frame is received whole with exactly its descriptors, whatever the first read returned, leaving what follows. |
| `Framing.RoundTripIff` | whale-land/src/connection.rs:87-90 | A packet comes back unchanged if and only if its opcode is below 256. |
| `Framing.ConversationReceived` | whale-land/src/connection.rs:48-122 | Any packets, any fragmentation: receives return them in order, each with its own descriptors, ending on a frame boundary. |
| `Framing.ConversationRoundTripIff` | whale-land/src/connection.rs:48-122 | The conversation comes back unchanged if and only if all opcodes are below 256. |
| `Framing.DescriptorsKeptIff` | whale-land/src/connection.rs:77-85 | For any peer, a receive returns all descriptors of the frame if and only if none ride behind its first read. |
| `Interleaving.RunKeeps` | whale-land/src/connection.rs:48-122 | Every state of every schedule of concurrent sends and receives satisfies the invariant that ties locks, buffers and stream together. |
| `Interleaving.WholeFramesPlusPrefix` | whale-land/src/connection.rs:51-65 | The stream is always whole frames in lock order plus a beginning of the lock holder's frame. |
| `Interleaving.DeliveredInOrder` | whale-land/src/connection.rs:70-122 | Receives return what was sent, in lock order, packet by packet and descriptor by descriptor; none ever fails. |
| `Interleaving.NothingLost` | whale-land/src/connection.rs:48-122 | When the locks are free and nothing is in flight, everything sent has been delivered. |
| `Interleaving.StepsUseUpWork` | whale-land/src/connection.rs:58-109 | Every step but a call lowers the number of steps that can be taken before the next call. |
| `Interleaving.RunsEnd` | whale-land/src/connection.rs:48-122 | From any reachable state, a run without further calls has at most that many steps, whatever the schedule and the socket. |
| `Interleaving.EverythingIsDelivered` | whale-land/src/connection.rs:48-122 | With at least as many receivers as packets, a run without further calls that can go no further has started every send and delivered every packet in lock order, and the stream is empty. |
| `Interleaving.NeverStuck` | whale-land/src/connection.rs:48-122 | While something is undelivered and someone receives, some step is possible. |
| `Interleaving.ScheduleRuns` | whale-land/src/connection.rs:48-122 | Runs exist: any packets, cut into any nonempty writes and reads, are delivered by a run with exactly these writes and reads. |
| `Clipboard.BinarySearchIsOk` | one-true-pairing/src/main.rs:368 | On a sorted table the binary search succeeds exactly for members. |
| `Clipboard.MimeTypesSorted` | one-true-pairing/src/main.rs:51-57 | The MIME type table is sorted, as the search needs. |
| `ClipboardOwning.RequestFits` | one-true-pairing/src/main.rs:441-568 | Every request the program makes type-checks, encodes and fits a packet: no `expect` on them can fail. |
| `ClipboardOwning.RequestPacket` | one-true-pairing/src/main.rs:441-568 | The generated code builds the request's packet for its target and opcode. |
| `ClipboardOwning.ClipboardOwner.constructor` | one-true-pairing/src/main.rs:182-217 | After `get_registry` the state is the initial one, with the registry as object 2. |
| `ClipboardOwning.ClipboardOwner.SendRequest` | one-true-pairing/src/main.rs:516-517 | Sending appends exactly the request's frame to the socket. |
| `ClipboardOwning.ClipboardOwner.EventArgs` | one-true-pairing/src/main.rs:302-303 | Decoding through the generated struct gives the event's arguments. |
| `ClipboardOwning.ClipboardOwner.ObtainDataDeviceIfReady` | one-true-pairing/src/main.rs:459-482 | Asks for the device exactly if seat and manager are known. |
| `ClipboardOwning.ClipboardOwner.CopyDispatch` | one-true-pairing/src/main.rs:484-542 | Stores the content and, without a live source but with a device, publishes one: create, all offers, select. |
| `ClipboardOwning.ClipboardOwner.ClearDispatch` | one-true-pairing/src/main.rs:545-568 | Drops the content and destroys the live source, if any. |
| `ClipboardOwning.ClipboardOwner.ServeContent` | one-true-pairing/src/main.rs:364-385 | Writes the content for offered types only, and always closes the descriptor. |
| `ClipboardOwning.ClipboardOwner.BindGlobal` | one-true-pairing/src/main.rs:318-359 | Binds a seat or manager that is not known yet, then asks for the device if both are. |
| `ClipboardOwning.ClipboardOwner.DecodeOnly` | one-true-pairing/src/main.rs:392-403 | Events that are only logged change nothing, but must decode. |
| `ClipboardOwning.ClipboardOwner.WaylandDispatch` | one-true-pairing/src/main.rs:295-439 | For every packet: the new state, or a panic where the state function has none. |
| `ClipboardOwning.ClipboardOwner.DispatchRegistry` | one-true-pairing/src/main.rs:313-362 | The registry arm. |
| `ClipboardOwning.ClipboardOwner.DispatchSource` | one-true-pairing/src/main.rs:363-391 | The source arm: serve, or forget a cancelled source and its content. |
| `ClipboardOwning.ClipboardOwner.DispatchSeat` | one-true-pairing/src/main.rs:392-403 | The seat arm. |
| `ClipboardOwning.ClipboardOwner.DispatchDevice` | one-true-pairing/src/main.rs:404-424 | The device arm: note incoming offers, decode the rest. |
| `ClipboardOwning.CompositorReceivesRequests` | one-true-pairing/src/main.rs:295-568 | From the program's requests through framing: the compositor gets one packet per request, in order, unchanged, however the stream is cut. |
| `ClipboardWire.EventPositions` | whale-land/src/protocol/ext_data_control_v1.rs:428-825 | The event opcodes the dispatcher compares with are the positions of those events in their interfaces. |
| `ClipboardWire.ReadBack` | one-true-pairing/src/main.rs:441-568 | A reader that knows only the interfaces, looks up the procedure at the packet's opcode and takes its fields by name gets the request back from its packet. |
| `ClipboardWire.ReadsTrace` | one-true-pairing/src/main.rs:295-568 | The same for the packets of a whole trace, the reader keeping track of which object has which interface. |
| `ClipboardWire.CompositorReadsRequests` | one-true-pairing/src/main.rs:295-568 | In every run, however the stream is cut, receiving and reading it gives exactly the requests the program made, in order. |
| `ClipboardRuns.PanicsIff` | one-true-pairing/src/main.rs:295-439 | The program panics on a packet exactly if it is one whose arguments it expects and they do not decode as that event. |
| `ClipboardRuns.EveryState` | one-true-pairing/src/main.rs:313-482 | In every run: device exactly if seat and manager, live source implies device and content, each of these requested at most once, and IDs sent are 2, 3, 4 and so on without gap. |
| `ClipboardRuns.EveryRequestOnce` | one-true-pairing/src/main.rs:318-359 | In every run, however long, the `bind` requests are at most one for a seat and one for a manager and none else, and `get_data_device` was sent exactly once if there is a device, naming that manager and seat, and never otherwise (main.rs:459-482). |
| `ClipboardRuns.EveryBindAnswers` | one-true-pairing/src/main.rs:441-456 | In every run, every `bind` comes right after the announcement it answers and names exactly that global, interface and version on that registry. |
| `ClipboardRuns.EveryAnnouncementBound` | one-true-pairing/src/main.rs:318-359 | In every run, a seat is bound if and only if the registry has announced one, and a clipboard manager likewise. |
| `ClipboardProtocol.PublicationObserved` | one-true-pairing/src/main.rs:509-541 | A publication passes the observer exactly if the device is not finished, and leaves the source selected with all types offered. |
| `ClipboardProtocol.ObeysProtocolIff` | one-true-pairing/src/main.rs:295-568 | In every run the observer of the protocol rules (requests only to live objects, destroying only selected sources, binding only announced globals at no more than their version) finds no fault if and only if no copy published after the device was finished. |
| `ClipboardWitness.StartUpRun` | one-true-pairing/src/main.rs:318-359 | Two globals lead to registry 2, seat 3, manager 4 and device 5. |
| `ClipboardWitness.CopyAfterFinishedBreaksProtocol` | one-true-pairing/src/main.rs:414-417 | A concrete run that breaks the protocol: device finished, then a copy. |
| `ClipboardWitness.EmptyMimeTypeUnderflows` | whale-land/src/packet.rs:206-214 | A concrete packet that makes a generated decoder underflow. |
| `ClipboardCell.EveryLife` | one-true-pairing/src/main.rs:484-568 | In every run, a source's requests are one create, all offers, one selection and at most one destroy, nothing after. |
| `ClipboardCell.EveryCell` | one-true-pairing/src/main.rs:484-568 | Stored content is always the last one copied and not cleared. |
| `ClipboardCell.ServesLastCopied` | one-true-pairing/src/main.rs:363-385 | Any packet that decodes as a `send` on the live source writes the value of the latest copy exactly if the type was offered for that source, closes the descriptor, and changes nothing else. |
| `ClipboardCell.WritesOnlyWhenAsked` | one-true-pairing/src/main.rs:363-385 | Content is written only on a `send` of the live source, and it is the cell's. |
| `ClipboardCell.EverApart` | one-true-pairing/src/main.rs:300-437 | In every run the known objects are pairwise different and none was ever a source: dispatch is unambiguous. |
| `ClipboardCell.LatePacketsChangeNothing` | one-true-pairing/src/main.rs:363-438 | Packets for a destroyed or cancelled source change nothing; the program panics exactly if the ID is also that of an incoming offer and its event does not decode. |
| `ClipboardCell.ClosesWhatItAnswers` | one-true-pairing/src/main.rs:363-385 | In every run the closed descriptors are exactly those brought by `send` events for the source live at that time, in order. |
| `ClipboardCell.CopyPublishesIff` | one-true-pairing/src/main.rs:494-507 | After a copy there is a live source exactly if there was one or the device is known. |
| `ClipboardCell.PacketsNeverPublish` | one-true-pairing/src/main.rs:295-439 | No packet creates a source: content copied too early waits for the next copy. |
| `ClipboardCell.OfferIsNoted` | one-true-pairing/src/main.rs:405-409 | In every run, a `data_offer` of the device makes its ID the noted offer and changes nothing else. |
| `ClipboardCell.OnlyOffersAreNoted` | one-true-pairing/src/main.rs:295-439 | No other packet changes which offer is noted. |
| `ClipboardCell.CancelForgets` | one-true-pairing/src/main.rs:386-391 | In every run, `cancelled` on the live source forgets source and content and changes nothing else. |
| `UrlCodec.NibbleTable` | one-true-pairing/src/totp.rs:207-218 | Nibbles are positions in the hexadecimal alphabets, either case; nothing else is a digit. |
| `UrlCodec.UrlDecode` | one-true-pairing/src/totp.rs:146-193 | The loop computes the decoding function. |
| `UrlCodec.Readable` | one-true-pairing/src/totp.rs:146-193 | Every input is a sentence of the token grammar. |
| `UrlCodec.ReadingsUnique` | one-true-pairing/src/totp.rs:146-193 | The grammar is unambiguous. |
| `UrlCodec.DecodesMeaning` | one-true-pairing/src/totp.rs:146-193 | Decoding is the concatenated meaning of the tokens of any reading. |
| `UrlCodec.DecodedSize` | one-true-pairing/src/totp.rs:147-149 | Exactly two bytes are saved per valid escape, so the reserved capacity suffices. |
| `UrlCodec.DecodeConcat` | one-true-pairing/src/totp.rs:146-193 | Decoding distributes over concatenation at token boundaries. |
| `UrlCodec.DecodeEncode` | one-true-pairing/src/totp.rs:146-193 | Decoding inverts percent-encoding, with and without plus handling. |
| `UrlCodec.PlusSigns` | one-true-pairing/src/totp.rs:146-193 | Without percent signs, decoding turns plus signs into spaces if asked to and changes nothing else. |
| `Base32.AlphabetTable` | one-true-pairing/src/totp.rs:238-245 | Characters stand for their position in the alphabet of RFC 4648. |
| `Base32.ChunkValue` | one-true-pairing/src/totp.rs:235-246 | Shifting and or-ing assembles the chunk's base-32 number without overflow. |
| `Base32.ChunkBytes` | one-true-pairing/src/totp.rs:248-292 | By chunk length: none for 1, 3 and 6, else the whole bytes above the excess bits. |
| `Base32.DecodeBase32` | one-true-pairing/src/totp.rs:220-296 | Fails exactly for foreign characters or lengths 1, 3, 6 modulo 8; otherwise the characters' number, excess bits cut, as whole bytes, for any length. |
| `Base32.DecodedAppend` | one-true-pairing/src/totp.rs:234-293 | Groups of eight characters decode independently. |
| `Base32.DecodeEncode` | one-true-pairing/src/totp.rs:220-296 | Inverts the unpadded encoder of RFC 4648 for any bytes. |
| `Base32.EncodeDecode` | one-true-pairing/src/totp.rs:248-292 | Re-encoding gives the same number with the excess bits cleared, at the same length. |
| `Base32.IgnoresCase` | one-true-pairing/src/totp.rs:238-242 | Letter case does not matter. |
| `Decimal.ParsePrinted` | one-true-pairing/src/totp.rs:94-102 | Parsing inverts printing up to the type's maximum. |
| `Decimal.ParseIff` | one-true-pairing/src/totp.rs:94-102 | A number is accepted if and only if it is digits, perhaps after a plus sign, that denote at most the type's maximum. |
| `Decimal.PaddedIsDigits` | one-true-pairing/src/notifier/mod.rs:483 | Zero-padded printing is the row of low decimal digits. |
| `Decimal.PaddedReads` | one-true-pairing/src/notifier/mod.rs:483 | It has exactly the requested width and reads back as the number. |
| `OtpauthUrl.ParsePathPart` | one-true-pairing/src/totp.rs:123-132 | A path part is absent if empty or not text. |
| `OtpauthUrl.TryFromOtpauthUrl` | one-true-pairing/src/totp.rs:64-143 | The loop over properties computes the parsing function: later properties win, bad numbers refuse the URL, unreadable properties are skipped. |
| `OtpauthRoundTrip.PropertyOfPair` | one-true-pairing/src/totp.rs:77-85 | A printed property is split, decoded and assigned under its name. |
| `OtpauthRoundTrip.UrlRoundTrip` | one-true-pairing/src/totp.rs:64-143 | Printing a record gives valid UTF-8, and parsing it gives the record back: every combination of optional fields, any text, any key. |
| `OtpauthRoundTrip.ParsedIsRepresentable` | one-true-pairing/src/totp.rs:64-143 | The parser only returns representable records: digits 6 to 8, period at least 1, text valid, path parts nonempty. |
| `OtpauthRoundTrip.PrintingNormalizes` | one-true-pairing/src/totp.rs:64-143 | Printing what was parsed gives a URL with the same meaning. |
| `OtpauthRoundTrip.HasUrlIff` | one-true-pairing/src/totp.rs:64-143 | A record has a URL that is valid UTF-8 if and only if it is representable. |
| `OtpauthGrammar.PathPartIff` | one-true-pairing/src/totp.rs:123-132 | A path part is its tokens' meaning, plus signs left alone, if it is nonempty and that is text. |
| `OtpauthGrammar.KeyValueIff` | one-true-pairing/src/totp.rs:77-85 | A property is a pair if and only if an equals sign ends its key and both sides, plus signs read as spaces, are text. |
| `OtpauthGrammar.PropertiesIff` | one-true-pairing/src/totp.rs:74-112 | For every list of properties: refused if and only if some digits or period is out of range; otherwise each field holds what its last property says. |
| `OtpauthGrammar.OthersAreSkipped` | one-true-pairing/src/totp.rs:77-112 | A property without equals sign, with an unknown key, or that is not text makes no difference, wherever it stands. |
| `OtpauthGrammar.ParsedIff` | one-true-pairing/src/totp.rs:64-143 | The parser returns a record if and only if the URL is prefix, path and query of the stated shape and its parts say that record; printed or not. |
| `Totp.TruncationIsRfc` | one-true-pairing/src/totp.rs:313-321 | Masking the assembled word is the dynamic truncation of RFC 4226. |
| `Totp.Hotp` | one-true-pairing/src/totp.rs:300-343 | For all digest lengths: no slice, assertion or division fails, and the result is the truncated digest modulo the power of ten. |
| `Totp.TimeCode` | one-true-pairing/src/totp.rs:345-354 | The counter is the number of whole periods. |
| `Totp.DefaultsAreGood` | one-true-pairing/src/totp.rs:59-62 | Any parsed record with defaults applied meets what `totp` and `hotp` demand. |
| `Totp.NamedAlgorithmIff` | one-true-pairing/src/notifier/mod.rs:460-472 | No name and SHA1 stand for SHA-1, SHA256 and SHA512 for theirs, other names for nothing. |
| `Totp.ComputedIsCode` | one-true-pairing/src/totp.rs:300-354 | In terms of the record alone: the text has the wanted number of digits, or six, and reads as the truncated digest, under the named algorithm, of the eight bytes that count the periods of the wanted length, or 30 seconds. |
| `Totp.CodeIsUnique` | one-true-pairing/src/totp.rs:300-354 | That description fits one text only. |
| `Totp.CodeForUrl` | one-true-pairing/src/notifier/mod.rs:453-484 | A click yields a code if and only if the URL is accepted and the algorithm known; the code is the one described by the parsed record and the time. |
| `Totp.CodeReads` | one-true-pairing/src/notifier/mod.rs:473-483 | The code has exactly the requested digits and reads as the truncated digest modulo the power of ten. |
| `Totp.ShorterCodeIsSuffix` | one-true-pairing/src/totp.rs:323-341 | A code with fewer digits is the end of the one with more. |
| `Totp.SameWindowSameCode` | one-true-pairing/src/totp.rs:352-353 | Within one period the code does not change. |
| `DiffieHellman.ByteVecValue` | one-true-pairing/src/secrets/mod.rs:182-194 | The bytes denote, big-endian, the number that the limbs denote, least significant first. |
| `DiffieHellman.ToBeBytesValue` | one-true-pairing/src/secrets/dh.rs:111-116 | `to_be_bytes` is numerically exact for every number that fits. |
| `DiffieHellman.PublicKeyFromBeBytes` | one-true-pairing/src/secrets/dh.rs:62-87 | Any string up to the full width decodes to its value modulo the prime; longer ones are refused. |
| `DiffieHellman.PowOfResidue` | one-true-pairing/src/secrets/dh.rs:89-93 | Reducing before a power changes nothing. |
| `DiffieHellman.KeySurvives` | one-true-pairing/src/secrets/dh.rs:62-87 | A public key survives the wire with or without its leading zeros. |
| `DiffieHellman.SecretIsCommonPower` | one-true-pairing/src/secrets/dh.rs:51-93 | The derived secret is the generator to the product of the private keys. |
| `DiffieHellman.Agree` | one-true-pairing/src/secrets/dh.rs:51-116 | Both sides derive the same secret from each other's bytes, for any private keys and any odd modulus. |
| `Menu.ObtainLayoutStructure` | one-true-pairing/src/notifier/mod.rs:188-287 | The loop builds the layout: one item per secret, then separator, update and exit, with the wanted properties. |
| `Menu.FlattenEntries` | one-true-pairing/src/notifier/mod.rs:289-296 | Recursion appends the preorder. |
| `Menu.ObtainGroupProperties` | one-true-pairing/src/notifier/mod.rs:298-321 | The loops return the preorder restricted to requested IDs and names. |
| `Menu.MenuPreorder` | one-true-pairing/src/notifier/mod.rs:289-296 | The preorder of the menu is the top followed by its items. |
| `Menu.RequestedContains` | one-true-pairing/src/notifier/mod.rs:303-320 | An ID with properties is returned exactly if requested and shown with those properties. |
| `Menu.GroupPropertiesOfSecret` | one-true-pairing/src/notifier/mod.rs:298-321 | Asking for a secret's item yields what the layout shows for it. |
| `Menu.ClickSelectsIff` | one-true-pairing/src/notifier/mod.rs:388-441 | A click on the item of a secret selects its path if and only if its ID is not reserved. |
| `Menu.LabelSelectsItsPathIff` | one-true-pairing/src/notifier/mod.rs:388-441 | Clicking an item that shows a label selects the path stored under that label if and only if it is not a fixed item; in particular for every label other than the two fixed ones. |
| `Menu.NamesDecideIff` | one-true-pairing/src/notifier/mod.rs:388-441 | Every item showing a secret's name selects that secret if and only if no secret is named like a fixed item. |
| `Menu.SecretNamedExit` | one-true-pairing/src/notifier/mod.rs:388-398 | A concrete menu in which an item shows a secret's name and exits. |
| `Menu.ClickOverflowsIff` | one-true-pairing/src/notifier/mod.rs:422-429 | The index subtraction overflows for the least 32-bit ID only, and no item has that ID. |
| `Menu.ItemShows` | one-true-pairing/src/notifier/mod.rs:188-287 | Every item's properties, in order: type and label exactly if asked for, with which values, and nothing else. |
| `Menu.RequestedIsBounded` | one-true-pairing/src/notifier/mod.rs:298-321 | Every returned group has a requested ID, and only requested properties. |
| `Menu.RequestedConcat` | one-true-pairing/src/notifier/mod.rs:303-320 | Groups come back in the order of the entries, once each. |
| `Menu.ClickDoes` | one-true-pairing/src/notifier/mod.rs:388-441 | What a click does, for every ID: by the item that has it, or nothing if none has. |
| `Menu.FixedLabelsAct` | one-true-pairing/src/notifier/mod.rs:392-420 | The item labelled "_Update menu" updates and the one labelled "E_xit" exits, unless a secret bears the name. |
| `Menu.IdsDistinctIff` | one-true-pairing/src/notifier/mod.rs:207-275 | Item IDs are pairwise different if and only if there are fewer than 0x7FFFFFFD secrets. |

## Left out

- HMAC, SHA and Montgomery arithmetic are foreign crates: HMAC is a parameter with the right output lengths, modular powers are exact.
- AES-CBC, HKDF, the secret-service session, D-Bus interfaces, tray icon, logging, zeroisation and command line are plumbing.
- The unsafe control-message code of `socket-fd-ext`: only the contract that `connection.rs` relies on, with descriptors riding on the first byte of their chunk.
- `Framing.Socket.SendWithFds`, `Framing.Socket.Send`, `Framing.Socket.Recv`, `Framing.Socket.RecvWithFds`: I/O errors and end of file are left out; every call makes progress.
- `Framing.Connection.FillBuffer`: a stream that ends before the buffer is full (the source then loops forever), and one method for the loop that `recv_packet` writes out twice.
- Cancellation of a receive by `select!`.
- `Framing.Connection.RecvPacket`: a stream that ends in mid-frame is left out; after a malformed header the stream is left behind the header, as in the source; what further receives then return is not described.
- `PacketBuffer.PacketReader.ReadStr`: wire length 0 is one error value, where the program panics with overflow checks and reports a misplaced NUL without; which packets reach it is exact (`Codec.ReadValueUnderflowIff`).
- `PacketBuffer.PacketReader.ReadRun`: one method for the part that `read_str` and `read_array` write out twice.
- XML input of `wlproto` and the spelling of generated Rust (type names, references, `async`): order, opcodes, names and the read, write and type selectors are modelled.
- `Fixed` conversions: only the inner 32-bit value travels.
- `ClipboardOwning.ClipboardOwner.ServeContent`: writing to and closing the descriptor are single actions that do not fail.
- `register_handler`, `drop_handler` and `dispatch` of `Connection` are not used by the application.
- `generate_private_key` depends on randomness; private keys are arbitrary numbers.
- The menu's `get_property`, `get_layout` and revision counter would only add easy members.
