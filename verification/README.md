# A verified model of the ez_router daemon

ez_router takes bytes from sockets and serial ports. Framed bytes on the IPC socket become registry entries and
acknowledgements; bytes on a port become messages in a bounded queue, which a dispatcher thread drains; a
supervisor starts subprocesses and looks for clients whose heartbeats have stopped. JSON, with a vendored cJSON,
is the language of registrations and configuration. This project models those paths in Dafny, in the form the
C code has (buffers written through offsets, slot arrays, linked nodes, critical sections), and proves what they
promise, for every input, every way a stream can be cut up and every interleaving of threads.

`dafny verify dfyconfig.toml` checks everything.

## How it is laid out

| module | models | reference it is proved against |
|---|---|---|
| `Bytes` | bytes, C ints, C strings | |
| `Utf` | `\u` escapes, UTF-16, UTF-8 (section 3 of RFC 3629, section 2 of RFC 2781) | a decoder for well-formed UTF-8 and the UTF-16 form of a code point |
| `JsonText`, `JsonGrammar` | the text cJSON prints, the language it accepts | each other, through `JsonRoundTrip` |
| `JsonStrings`, `JsonShape` | which texts are strings, numbers, arrays, objects and documents, stated on the bytes | `JsonGrammar`, in both directions |
| `JsonLook` | how printed values look, stated on the bytes | `JsonText` |
| `JsonRoundTrip`, `JsonStable` | printing and then parsing; parsing, printing and parsing again | the identity on trees |
| `SiblingList` | the `next`/`prev` chains under arrays and objects | operations on sequences |
| `JsonTree` | linked nodes that hold a value | the value |
| `JsonParser` | the offset-tracked parse buffer, the two-pass string reader and the nodes they fill | `JsonGrammar` |
| `JsonPrinter` | the growing print buffer, walking along the nodes | `JsonText` |
| `ProtoCodec`, `Deframing` | frames, and a whole byte stream as frames | each other |
| `RegisterPayload`, `Registry` | a REGISTER payload, the slot table | a map from descriptor to entry |
| `Dispatcher`, `IpcServer` | acknowledgements, the connection loop, the service loop | `Deframing` and the rule for answers |
| `EventQueue` | the ring and its threads | first in, first out with counted drops |
| `Forwarding` | route choice, fan-out, and the way through the queue | outcomes route by route |
| `Supervisor` | spawning among concurrent spawners | a log of successful returns |
| `Heartbeat` | the stale-client check among the service thread's steps | the clients' real lateness |

Methods are the code as it runs. Each is proved equal to a function, and the lemmas are about that function. So that
function and code cannot be wrong in the same way, what the functions mean is also stated on plain bytes, indices and
times, without naming them: `JsonStrings`, `JsonShape` and `JsonLook` for JSON, `ProtoCodec.WireLayout` and
`ProtoCodec.DecodeLayout` for frames, `RegisterPayload.RegistersWhen` and the lemmas behind it for registrations,
`Forwarding.ReadRuns` and `Forwarding.MatchingMeans` for routes, `Supervisor.RecordedBecause` for spawning.
The environment is an adversary: `recv` delivers any non-empty prefix of what is coming, `send` takes any prefix
or none, a plugin handler returns any int and any buffer, a condition variable wakes any non-empty set of waiters
or one for no reason, and threads interleave at every lock operation.

Where the code and its comments differ, the code is modelled:

- event_queue.h:14 says that -1 from `queue_push` means the queue stayed full for the whole timeout, which begins
  when the call first finds it full. The code drops on a timeout without looking at the ring again, and sleeps on
  under the same deadline when the room it was woken for is gone. `EventQueue.DropWhileNotFull` gives a run in which
  the ring has room at the drop; `EventQueue.DropMeans` finds the first look behind every drop; and
  `EventQueue.DropWhileFull` says when the header is right: if and only if nothing was dequeued from that first look
  to the drop.
- `pthread_cond_timedwait` may report the timeout of a thread that a signal has already woken, and `queue_push` then
  gives up without passing the signal on. With two pushers the other one can be left asleep beside a free slot:
  `EventQueue.TwoCanBeStranded` builds the run for any two. Pushers are safe from this if and only if there is at most
  one of them (`EventQueue.StrandedOnlyIfTwo`), as in the daemon, where the reactor is the only one.
- The comment above `send_nonblock_retry` counts 8 retries. The code gives up on the ninth attempt that finds the
  socket full, after 8 sleeps, or on a failure, and in no other case: `Dispatcher.SendRetry` states this as an
  equivalence.
- The handlers share one buffer. A route without a handler is sent the data that was read, whatever the plugin code
  does, if and only if no route before it has a handler (`Forwarding.AfterAHandler`); `Forwarding.SpoiltBefore`
  builds plugin code for the other case.
- `cJSON_AddItemToArray`, inserting, detaching and replacing do not check what they are given. `SiblingList.Append`,
  `SiblingList.Insert`, `SiblingList.Detach` and `SiblingList.Replace` say for which items the lists stay well
  formed, as equivalences; `SiblingList.AppendWithNext`, `SiblingList.AppendTwice`,
  `SiblingList.DetachFromTheWrongList`, `SiblingList.DetachGrandchild`, `SiblingList.InsertTwice`,
  `SiblingList.InsertParent` and `SiblingList.ReplaceByNext` show concrete damage.
- Printing a tree nested deeper than 1000 containers succeeds, and parsing that text fails; a string ends at its
  first NUL. `JsonRoundTrip.PrintThenParseExactly` gives the exact condition for the round trip, `JsonStable.TooDeep`
  and `JsonStable.NulIsLost` the inputs. Values that were parsed are never too deep (`JsonStable.PrintedIsStable`).

## Model

| member | source | states |
|---|---|---|
| Utf.ParseHex4 | routerd/3rdparty/cjson/cJSON.c:661-695 | four digits are read as their value and anything else as 0, as the pure reading says |
| Utf.Utf8RoundTrip | routerd/3rdparty/cjson/cJSON.c:765-813 | what is written for a scalar value is well-formed UTF-8 and decodes to that value |
| Utf.Utf8Unique | routerd/3rdparty/cjson/cJSON.c:765-813 | a well-formed byte sequence is the one written for the value it decodes to, so there is no second encoding |
| Utf.EscapeMeaning | routerd/3rdparty/cjson/cJSON.c:698-816 | an accepted escape spells the UTF-16 of its code point, never a surrogate, and its output is the only well-formed UTF-8 of it |
| Utf.EscapeAcceptance | routerd/3rdparty/cjson/cJSON.c:698-762 | an escape is accepted if and only if its one or two units are the UTF-16 of some code point, so lone surrogates are rejected |
| Utf.MasksAreDigits | routerd/3rdparty/cjson/cJSON.c:793-808 | for every code point held in a 32-bit word, the bytes made with masks and shifts are the numbers the integer arithmetic of the model gives |
| Utf.PairsByMasks | routerd/3rdparty/cjson/cJSON.c:752-753 | putting two 16-bit units together with masks and shifts is the integer arithmetic of the model |
| JsonGrammar.ParseValue | routerd/3rdparty/cjson/cJSON.c:1363-1415 | parsing is total on every buffer, advances strictly on success and never leaves the buffer |
| JsonRoundTrip.NumberParses | routerd/3rdparty/cjson/cJSON.c:307-408 | the decimal text of any C int, followed by anything that is no number byte, is read back as that int |
| JsonRoundTrip.StringParses | routerd/3rdparty/cjson/cJSON.c:819-1068 | an escaped and quoted string is read back as the same C string, ending right behind its closing quote |
| JsonRoundTrip.PrintThenParse | routerd/3rdparty/cjson/cJSON.c:1142-1881 | parsing printed text, formatted or not, succeeds if and only if the nesting is at most 1000, and then gives the tree with strings cut at NUL and consumes exactly the text |
| JsonRoundTrip.PrintThenParseExactly | routerd/3rdparty/cjson/cJSON.c:1142-1881 | the very same tree comes back if and only if the nesting is at most 1000 and no string holds a NUL |
| JsonRoundTrip.RenderHasNoNul | routerd/3rdparty/cjson/cJSON.c:1418-1489 | printed text never contains a NUL, so it survives as a C string |
| JsonStrings.LegalStringReads | routerd/3rdparty/cjson/cJSON.c:819-946 | a literal spelt with plain bytes, the eight two-character escapes and scalar values as `\uXXXX` (pairs above 0xFFFF, either hex case) is read as those bytes and, for each value, the well-formed UTF-8 that decodes to it |
| JsonStrings.ReadStringIsLegal | routerd/3rdparty/cjson/cJSON.c:819-946 | conversely a literal that is read, with four hex digits behind every `\u`, consists of such characters, and what was read is what they say |
| JsonStrings.BadDigitsStoreNul | routerd/3rdparty/cjson/cJSON.c:661-696 | a `\u` with anything but hex digits among its four takes six bytes and stores a NUL |
| JsonShape.ValueIs | routerd/3rdparty/cjson/cJSON.c:1363-1415 | a value is one of three words or, by its first byte, a string, number, array or object, and nothing else |
| JsonShape.ArrayIs | routerd/3rdparty/cjson/cJSON.c:1492-1587 | a text is an array of given items if and only if it is their list in brackets, separated by commas, with bytes up to 32 between the parts, less than 1000 arrays and objects deep |
| JsonShape.ObjectIs | routerd/3rdparty/cjson/cJSON.c:1652-1767 | a text is an object of given members if and only if it is their list in braces, each a string, a colon and a value, separated by commas, with bytes up to 32 between the parts |
| JsonShape.NumberIs | routerd/3rdparty/cjson/cJSON.c:307-408 | a number is read if and only if a sign, digits, point and exponent in that order start here, and then the longest such text |
| JsonShape.NumberValueIs | routerd/3rdparty/cjson/cJSON.c:378-404 | a sign and digits are the int they spell when it is in range, any other number is kept as text |
| JsonShape.DigitsValueFront | routerd/3rdparty/cjson/cJSON.c:378-404 | the first digit counts with the highest power of ten |
| JsonShape.DocumentIs | routerd/3rdparty/cjson/cJSON.c:1111-1181 | a document is a value behind blanks, behind EF BB BF if the buffer starts with it; when a NUL is asked for it must be the last byte, with blanks ahead of it |
| JsonLook.IntLooks | routerd/3rdparty/cjson/cJSON.c:591-658 | an int is printed as its decimal digits without needless zeros, behind a minus sign if negative |
| JsonLook.ByteLooks | routerd/3rdparty/cjson/cJSON.c:949-1068 | each byte of a string is printed as itself, as its two-character escape, or as `\u00` and two lower-case digits |
| JsonLook.StringLooks | routerd/3rdparty/cjson/cJSON.c:949-1068 | a string is printed byte by byte, up to its first NUL, between quotes |
| JsonLook.ArrayLooks | routerd/3rdparty/cjson/cJSON.c:1590-1649 | items stand between brackets with a comma, and a blank behind it when formatted |
| JsonLook.ObjectLooks | routerd/3rdparty/cjson/cJSON.c:1770-1881 | members stand between braces with commas and colons; formatted, each on its own line behind its tabs, with a tab behind the colon |
| JsonStable.PrintedIsStable | routerd/3rdparty/cjson/cJSON.c:1142-1881 | whatever text was parsed, its value is within the nesting limit, so printing and parsing it again gives it with strings cut at NUL, and from then on changes nothing |
| JsonStable.TooDeep | routerd/3rdparty/cjson/cJSON.c:1492-1501 | 1001 arrays in one another print as text that does not parse |
| JsonStable.NulIsLost | routerd/3rdparty/cjson/cJSON.c:949-1068 | a string of one NUL byte is read back as the empty string |
| JsonParser.AdvanceByPiece | routerd/3rdparty/cjson/cJSON.c:832-923 | after each piece of the second pass, bytes written plus escapes still to be saved stay within what the first pass computed, also when a malformed escape puts the passes out of step |
| JsonParser.EscapesFit | routerd/3rdparty/cjson/cJSON.c:832-857 | what the first pass subtracts never exceeds the length it subtracts from |
| JsonParser.WriteUtf8 | routerd/3rdparty/cjson/cJSON.c:765-813 | storing the bytes last to first leaves the UTF-8 of the code point behind what was there |
| JsonParser.FillLiteral | routerd/3rdparty/cjson/cJSON.c:859-923 | the second pass fits the array sized by the first, terminator included, and yields the literal's contents or its first bad escape |
| JsonParser.ParseBuffer.SkipWhitespace | routerd/3rdparty/cjson/cJSON.c:1085-1108 | the offset goes to the next byte above 32, or one byte back from the end of the input |
| JsonParser.ParseBuffer.ReadString | routerd/3rdparty/cjson/cJSON.c:819-946 | reading in two passes gives the grammar's result, and the offset it leaves on failure |
| JsonParser.ParseBuffer.ReadValue | routerd/3rdparty/cjson/cJSON.c:1363-1415 | the mutating parser leaves the grammar's offset and a tree of new nodes that holds the grammar's value, keeps depth within 1000 and the offset within the buffer, and terminates |
| JsonParser.ParseBuffer.ReadItem | routerd/3rdparty/cjson/cJSON.c:1529-1556 | one turn of the array loop: the new node, linked before it is filled, ends up behind the list and holds the next item |
| JsonParser.ParseBuffer.ReadItems | routerd/3rdparty/cjson/cJSON.c:1522-1579 | the loop over array items leaves them linked under the array in the order and with the values of the recursive grammar |
| JsonParser.ParseBuffer.ReadMember | routerd/3rdparty/cjson/cJSON.c:1687-1737 | one turn of the object loop: the new node carries the member's name and holds its value |
| JsonParser.ParseBuffer.ReadMembers | routerd/3rdparty/cjson/cJSON.c:1682-1758 | the loop over object members leaves them linked under the object in the order, with the names and the values of the recursive grammar |
| JsonParser.ParseBytes | routerd/3rdparty/cjson/cJSON.c:1142-1219 | a document that the grammar accepts becomes a tree of new nodes holding its value, any other is refused, with an error position inside a non-empty input |
| JsonTree.HoldsOne | routerd/3rdparty/cjson/cJSON.c:1522-1571 | linked nodes determine the value they hold |
| JsonTree.Link | routerd/3rdparty/cjson/cJSON.c:1536-1548 | hanging a new node behind the last keeps what the earlier nodes hold |
| JsonTree.Extend | routerd/3rdparty/cjson/cJSON.c:1527-1559 | once filled, a linked node extends the chain, its names and its values by one |
| JsonTree.Close | routerd/3rdparty/cjson/cJSON.c:1566-1574 | pointing the head's `prev` at the last node and the parent at the head completes a well-formed list of separate subtrees |
| JsonPrinter.PrintBuffer.Ensure | routerd/3rdparty/cjson/cJSON.c:485-569 | succeeds if and only if the bytes asked for and one more fit the limit, grants exactly that room and keeps the text before the offset |
| JsonPrinter.PrintBuffer.UpdateOffset | routerd/3rdparty/cjson/cJSON.c:571-581 | scanning to the terminator adds precisely the text printed last |
| JsonPrinter.PrintBuffer.PrintString | routerd/3rdparty/cjson/cJSON.c:949-1068 | the escaped, quoted text and its terminator stand behind the text so far, written only where room was granted |
| JsonPrinter.PrintBuffer.PrintValue | routerd/3rdparty/cjson/cJSON.c:1418-1489 | succeeds if and only if the rendering and two bytes fit; then the buffer holds the old text, the rendering of the value the nodes hold and a NUL |
| JsonPrinter.PrintBuffer.PrintItems | routerd/3rdparty/cjson/cJSON.c:1610-1639 | walking along the children appends the items' rendering, whatever growth happens in between |
| JsonPrinter.PrintBuffer.PrintMembers | routerd/3rdparty/cjson/cJSON.c:1796-1860 | walking along the children appends the members' rendering, whatever growth happens in between |
| JsonPrinter.Print | routerd/3rdparty/cjson/cJSON.c:1234-1300 | yields the rendering, or nothing exactly when it does not fit a C int |
| JsonPrinter.PrintPreallocated | routerd/3rdparty/cjson/cJSON.c:1343-1360 | a caller's buffer suffices if and only if it has two bytes more than the text |
| SiblingList.Walk | routerd/3rdparty/cjson/cJSON.c:1907-1924 | following `next` visits the children in order, once each, and ends: the chain has no cycle |
| SiblingList.GetArrayItem | routerd/3rdparty/cjson/cJSON.c:1907-1924 | gives the item at that position of the sequence, or null behind its end |
| SiblingList.Append | routerd/3rdparty/cjson/cJSON.c:2012-2043 | constant-time appending is appending to the sequence if and only if the item was not in the list and either the list was empty or the item's `next` was null |
| SiblingList.Detach | routerd/3rdparty/cjson/cJSON.c:2243-2277 | removes just that child; for an item of another list, the parent's list survives if and only if the item was not the last there, and the other list loses it cleanly if and only if it was neither first nor last; an item that hangs nowhere changes nothing |
| SiblingList.Insert | routerd/3rdparty/cjson/cJSON.c:2319-2351 | inserts at that position of the sequence if and only if the item is neither in the list nor the parent; behind the end it appends under the condition for appending |
| SiblingList.Replace | routerd/3rdparty/cjson/cJSON.c:2353-2400 | puts the replacement in the child's place if and only if it is new to the list (or the child itself); for an item that is no child, says which list survives |
| SiblingList.AppendWithNext | routerd/3rdparty/cjson/cJSON.c:2012-2043 | an item with a `next` appended to a one-item list spoils it |
| SiblingList.AppendTwice | routerd/3rdparty/cjson/cJSON.c:2012-2043 | the only item of a list, appended again, becomes its own successor |
| SiblingList.DetachFromTheWrongList | routerd/3rdparty/cjson/cJSON.c:2243-2277 | detaching the only node of another list damages both lists |
| SiblingList.DetachGrandchild | routerd/3rdparty/cjson/cJSON.c:2243-2277 | detaching an only grandchild through its grandparent damages both lists |
| SiblingList.InsertTwice | routerd/3rdparty/cjson/cJSON.c:2319-2351 | a child inserted in front of itself becomes its own successor |
| SiblingList.InsertParent | routerd/3rdparty/cjson/cJSON.c:2319-2351 | a parent inserted into its own list becomes its own child |
| SiblingList.ReplaceByNext | routerd/3rdparty/cjson/cJSON.c:2353-2400 | a child replaced by the one behind it leaves that one as its own successor |
| ProtoCodec.DecodeWire | routerd/src/proto_codec.c:13-70 | decoding an encoded frame, whatever follows it, gives the frame and the length of its encoding |
| ProtoCodec.WireDecode | routerd/src/proto_codec.c:42-70 | the bytes a decode consumes are the encoding of the frame it gives |
| ProtoCodec.DecodeStable | routerd/src/proto_codec.c:42-70 | a complete frame or an error stays what it is when more bytes arrive |
| ProtoCodec.WireLayout | routerd/include/protocol.h:55-61 | bytes 0 to 3 are 0x7C, 0xEB, 1 and the command; sequence number and payload length stand at 4 and 8, least byte first; the payload starts at 12 |
| ProtoCodec.DecodeLayout | routerd/src/proto_codec.c:42-70 | which bytes are incomplete, which are rejected with which error, and from which bytes each field of a complete frame comes |
| ProtoCodec.Encode | routerd/src/proto_codec.c:13-40 | writes the bytes of that layout or nothing, with the error the code gives for each failing condition, and nothing behind them |
| Deframing.DeframeAppend | routerd/src/ipc_server.c:76-103 | deframing the residue together with what arrives next continues the one-shot deframing of it all |
| Deframing.ResidueIsShort | routerd/src/ipc_server.c:105-112 | what is left after deframing is shorter than a header and a maximal payload, so the buffer-full branch is never taken |
| Deframing.DeframeWire | routerd/src/ipc_server.c:78-103 | concatenated encodings deframe to exactly the encoded frames with nothing left |
| Deframing.WireDeframe | routerd/src/ipc_server.c:78-103 | a stream is the encodings of its frames followed by bytes that are not yet a frame, or are rejected with the error reported |
| RegisterPayload.CopyField | routerd/src/registry.c:23-32 | the field reads back as the C string cut to fit, and writes stay inside it |
| RegisterPayload.FindMember | routerd/3rdparty/cjson/cJSON.c:1936-1966 | walking along the children finds the first member of that name, or null when there is none or the node is no object |
| RegisterPayload.TakePortNames | routerd/src/registry.c:99-111 | the loop over the linked children takes the first eight named ports in order, passing over items without a name |
| RegisterPayload.ParseRegister | routerd/src/registry.c:66-115 | from the bytes through the tree of nodes to the fields: a payload is accepted and read as its grammar value says |
| RegisterPayload.RegistersWhen | routerd/src/registry.c:66-92 | a payload is accepted if and only if it has 1 to 4096 bytes, parses, and has a string first under each of device_id, model, fw_version and build_date |
| RegisterPayload.RegisteredFields | routerd/src/registry.c:94-97 | each field is the C string of the first member of its own name, or its first 63, 31, 15 and 15 bytes |
| RegisterPayload.RegisteredPorts | routerd/src/registry.c:99-111 | the port names are those of the first eight named items of the first "ports", in order, cut to 31 bytes |
| RegisterPayload.PrintedRegistration | routerd/src/registry.c:66-115 | a printed registration, formatted or not, registers what its tree says if it fits 4096 bytes and the nesting limit, and nothing otherwise |
| Registry.ViewAt | routerd/src/registry.c:117-243 | the map holds a descriptor if and only if some slot does, with that slot's entry |
| Registry.ViewKeys | routerd/src/registry.c:117-166 | descriptors key their own entries and different entries have different device ids |
| Registry.ViewSize | routerd/src/registry.c:117-166 | the map is as large as the table if and only if every slot is used |
| Registry.Table.Register | routerd/src/registry.c:117-166 | succeeds if and only if the payload parses, descriptor and truncated device id are fresh and fewer than 32 slots are used; then the map gains that entry, otherwise nothing changes |
| Registry.Table.Unregister | routerd/src/registry.c:168-184 | removes the descriptor from the map and says whether it was there |
| Registry.Table.UpdateHeartbeat | routerd/src/registry.c:186-201 | stamps the descriptor's entry and nothing else, or reports that there is none |
| Registry.Table.FindByFd | routerd/src/registry.c:203-216 | agrees with looking the descriptor up in the map |
| Registry.Table.FindByDeviceId | routerd/src/registry.c:218-232 | finds the entry of that device if the map has one |
| Registry.Table.Snapshot | routerd/src/registry.c:234-243 | copies every entry of the map exactly once |
| Dispatcher.AckLayout | routerd/src/proto_dispatcher.c:72-89 | an acknowledgement is command 2 with the request's sequence number and {"ok":true} or {"ok":false}, byte for byte |
| Dispatcher.AckIsJson | routerd/src/proto_dispatcher.c:29-34 | the hand-built payload parses to the object that holds the answer and nothing else |
| Dispatcher.SendRetry | routerd/src/proto_dispatcher.c:42-70 | for every sequence of send outcomes a prefix goes out and success means all of it; it fails if and only if a send failed or nine found the socket full, sleeping once for each of the first 8 |
| Dispatcher.SendRegisterAck | routerd/src/proto_dispatcher.c:72-94 | a prefix of the encoded acknowledgement with the request's sequence number goes out, and all of it if and only if no send failed and at most eight found the socket full |
| Dispatcher.Dispatch | routerd/src/proto_dispatcher.c:96-150 | only REGISTER is answered, once, with its own sequence number and with true if and only if the table accepted it; an accepted REGISTER enters what its payload says with the time read, a HEARTBEAT renews the client's stamp with the time read, and nothing else changes the table |
| IpcServer.AnswersExtend | routerd/src/proto_dispatcher.c:96-117 | one more frame extends the correspondence between REGISTERs and answers: same order and number, true for the first well-formed one only |
| IpcServer.ClientEntryMeans | routerd/src/proto_dispatcher.c:96-117 | after any frames the client's entry holds what its first well-formed REGISTER says and the time of the last HEARTBEAT behind it, or of that REGISTER |
| IpcServer.Serve | routerd/src/ipc_server.c:95-96 | one dispatch keeps the correspondence of the answers and the table's single entry, with its stamp, to the frames and times so far; its outcome is never a foreign device id or a full table, and a taken descriptor only after a well-formed REGISTER |
| IpcServer.DrainBuffer | routerd/src/ipc_server.c:79-103 | the decoding loop dispatches the frames of deframing the buffer and leaves its residue at the front, or stops at its error |
| IpcServer.HandleClient | routerd/src/ipc_server.c:57-118 | for every stream and every way it is received, frames and ending are those of deframing in one go, answers are as required, only prefixes of their frames are sent, and the entry is gone at the end |
| IpcServer.ServeAll | routerd/src/ipc_server.c:120-135 | clients are served in order, each correctly, with an empty table between them |
| EventQueue.RingTests | routerd/src/event_queue.c:32-69 | the index tests mean 127 messages and none |
| EventQueue.PutAppends | routerd/src/event_queue.c:57-58 | storing into a ring with room appends and overwrites nothing unread |
| EventQueue.TakeRemoves | routerd/src/event_queue.c:72-73 | taking gives the oldest message and keeps the others in order |
| EventQueue.Queue.Enqueue | routerd/src/event_queue.c:57-58 | the slot write and index step append to the contents |
| EventQueue.Queue.Dequeue | routerd/src/event_queue.c:72-73 | the slot read and index step remove the first of the contents |
| EventQueue.StepKeeps | routerd/src/event_queue.c:28-78 | every step of any thread keeps order, conservation and the consumers' wake-up coverage |
| EventQueue.StepKeepsCovered | routerd/src/event_queue.c:43-76 | while anybody of a side sleeps, as many of that side are awakened as could go on, and every step keeps this, but for a signalled pusher that times out |
| EventQueue.EveryRun | routerd/src/event_queue.c:28-78 | in every interleaving: popped then queued messages are the accepted pushes in order, finished pushes are popped, queued or counted as dropped, at most 127 wait, and while a consumer sleeps at least as many awakened consumers as messages are on their way |
| EventQueue.NoConsumerSleepsInVain | routerd/src/event_queue.c:57-78 | in every reachable state with a consumer asleep and a message waiting, some awakened consumer can take one |
| EventQueue.UnwastedNotStranded | routerd/src/event_queue.c:28-78 | with any number of pushers, in every run in which no signalled pusher times out, none sleeps beside a free slot with no pusher awakened for it |
| EventQueue.LonePusherSleepsOnFull | routerd/src/event_queue.c:28-78 | a single pusher sleeps only while the ring is full, in every run |
| EventQueue.TwoCanBeStranded | routerd/src/event_queue.c:43-52 | for any two pushers a run exists that leaves one asleep beside a free slot with no pusher awakened |
| EventQueue.StrandedOnlyIfTwo | routerd/src/event_queue.c:28-78 | a set of pushers is safe from that in every run if and only if it has at most one member |
| EventQueue.DropMeans | routerd/src/event_queue.c:28-52 | a dropped push belongs to a call with that message whose first look found the ring full, and which has only slept, woken and timed out since |
| EventQueue.StaysFullUntilPopped | routerd/src/event_queue.c:28-78 | once full, the ring stays full all through a run if and only if nothing is dequeued in it |
| EventQueue.DropWhileFull | routerd/src/event_queue.c:28-52 | the ring stayed full from that first look to the drop if and only if nothing was dequeued in between |
| EventQueue.DropWhileNotFull | routerd/src/event_queue.c:43-52 | a run exists in which a message is dropped while the ring has room |
| Forwarding.FindRoutes | routerd/src/config_store.c:394-416 | the out array holds the first matching routes, in configuration order, as many as fit |
| Forwarding.GetHandler | routerd/src/plugin_loader.c:31-38 | gives the first handler of that name, or none if no name matches |
| Forwarding.FirstHandlerMeans | routerd/src/plugin_loader.c:31-38 | a lookup finds the registration of that name with the lowest index, and nothing if there is none |
| Forwarding.MatchingMeans | routerd/src/config_store.c:394-416 | the matching routes are those whose source is the same C string, each once, in configuration order |
| Forwarding.FanOut | routerd/src/reactor.c:175-199 | the loop pushes what the fan-out specification says and leaves the buffer as the handlers made it |
| Forwarding.HandleRead | routerd/src/reactor.c:127-199 | one read is cut to a string, its routes chosen and its messages pushed as specified |
| Forwarding.ByteForByte | routerd/src/reactor.c:173-199 | a source whose routes have no handler is forwarded unchanged to its first 16 routes in order |
| Forwarding.ReadRuns | routerd/src/reactor.c:127-199 | the data, a NUL and the stale rest pass through the first 16 routes: each handler is called with the buffer the one before it left, sends the first min(result, 1024) bytes of what it returned, or nothing for a negative result |
| Forwarding.OneHandledRoute | routerd/src/reactor.c:175-199 | a single route with a handler sends what its handler returned for the data read |
| Forwarding.ReadYields | routerd/src/reactor.c:173-199 | for every behaviour of the handlers the messages are the outcomes of the first 16 routes in order without the refused ones, each at most 1024 bytes |
| Forwarding.AfterAHandler | routerd/src/reactor.c:175-199 | a route without a handler is sent the data read under every behaviour of the plugin code if and only if no earlier route has a handler |
| Forwarding.SpoiltBefore | routerd/src/reactor.c:175-199 | if an earlier route has one, plugin code under the same names exists that makes the later message differ from the data |
| Forwarding.ProgramInOrder | routerd/src/reactor.c:62-199 | what a read sends stands behind what earlier reads send |
| Forwarding.CanBeDelivered | routerd/src/event_queue.c:28-78 | for everything the reactor may push, a run exists in which a consumer takes all of it, in order, with no drop |
| Forwarding.EndToEnd | routerd/src/reactor.c:173-199 | in every interleaving with any number of consumers, finished pushes are a prefix of what the reads yield, and what is handed out and queued is that without the counted drops, in order |
| Forwarding.ReactorSleepsOnFull | routerd/src/reactor.c:196-196 | in every interleaving with any number of consumers the reactor sleeps in a push only while the ring is full |
| Forwarding.UndroppedIsPrefix | routerd/src/event_queue.c:28-78 | with no drop counted, what has been handed out is a prefix of what the reads yield |
| Supervisor.FinalSlotIsEnd | routerd/src/supervisor.c:89-103 | the second phase ends at the first slot behind the recorded children, or gives up only when there is none |
| Supervisor.Table.Finalise | routerd/src/supervisor.c:88-109 | records the child in the chosen slot or the first free one, and changes no other slot |
| Supervisor.Table.ChildCount | routerd/src/supervisor.c:158-167 | counts the used slots |
| Supervisor.KeepsAccounts | routerd/src/supervisor.c:50-113 | no step loses a forked child: it is with a thread, recorded or killed |
| Supervisor.KeepsOneWay | routerd/src/supervisor.c:50-113 | no step records, returns or kills a child twice |
| Supervisor.SpawnIsSafe | routerd/src/supervisor.c:50-167 | in every interleaving the table is the log of successful returns, the child count is their number, every fork is accounted for in exactly one way, and children are killed only with all 32 slots used |
| Supervisor.NeverOverwritten | routerd/src/supervisor.c:104-108 | a recorded child stays as it is for the rest of every run |
| Supervisor.RecordedBecause | routerd/src/supervisor.c:50-113 | every recorded child is that of one call: its name is that call's, cut to 63 bytes, its pid that fork's, its time that of the second lock, with no other step of the thread in between |
| Heartbeat.CheckHeartbeatsAt | routerd/src/supervisor.c:131-151 | counts exactly the entries older than the timeout, without underflow for a stamp later than now |
| Heartbeat.CountedWereLate | routerd/src/supervisor.c:131-156 | a client is counted if and only if its stamp in the snapshot is more than the timeout before the clock read, and then it was that old when the snapshot was taken |
| Heartbeat.NoMissedAlarm | routerd/src/supervisor.c:131-156 | a client that is late when the clock is read, and of which nothing is heard, is counted |
| Heartbeat.RunStep | routerd/src/registry.c:117-201 | the table operations do to the table what the machine's steps say |
| Heartbeat.NoFalseAlarm | routerd/src/supervisor.c:153-156 | a client that is never late is never counted, however clock reads, heartbeat writes, snapshots and registrations interleave |

## Left out

- JsonText.Render: numbers are the C ints; printing other doubles (`%1.15g`) and their comparison is not modelled.
- JsonGrammar.ParseNumber: a number that is no C int is kept as its text; `strtod` is modelled by how much it reads, for the C locale, not by the value it rounds to. A minus sign on zero is not kept.
- Allocation failure, allocation hooks, and freeing in the JSON engine.
- JSON reference items, raw items, strings that are null pointers, `cJSON_Minify`, `cJSON_Compare`, `cJSON_Duplicate`, and case-insensitive names: the daemon does not use them.
- SiblingList.Detach: an item whose `prev` is set although it is in no well-formed list, and detaching the last item of another list from an empty parent, where the original dereferences a null pointer.
- SiblingList.Replace: an item that hangs nowhere but has a `next`; and, for an item that is no child of the parent, a replacement that is not new. Freeing the replaced item.
- SiblingList.Append: names and values inside the nodes, and what the list looks like after it was spoilt, beyond not being well formed.
- Dispatcher.SendRetry: a call is interrupted by signals only finitely often; otherwise the original need not return.
- IpcServer.HandleClient: the same holds for `recv`.
- IpcServer.ServeAll: failed `accept` calls and stopping are arbitrary, the sleep between attempts is not modelled.
- Registry.Table.FindByFd: gives the entry, not the borrowed pointer whose lifetime the header leaves to the caller.
- Registry.Table.Register: `last_seq` is always 0 in the code and is not part of an entry; the clock is an argument.
- The one-time initialisation flags, logging, and null-pointer arguments of registry, supervisor and dispatcher.
- EventQueue.EveryRun: does not promise the pushers' wake-up coverage in every run, because the code does not keep it; the rows from `EventQueue.UnwastedNotStranded` on say when it does.
- EventQueue.StepKeeps: the clock is not modelled, so a sleeping push may time out at any moment; message bytes behind `len` are not part of a message.
- Heartbeat.NoFalseAlarm: one thread registers, stamps and unregisters, as in the daemon; with several, an old stamp could overwrite a newer one.
- ProtoCodec.Encode: the header is copied as memory in the original; the model is that of a little-endian machine.
- Forwarding.HandleRead: a read that returns no bytes closes the port, which is not modelled.
- Forwarding.EndToEnd: one reactor thread pushes, as in the daemon; what the dispatcher does with a message after `queue_pop` is left out.
- Supervisor.SpawnIsSafe: what the child does after fork, and children that exit (the original never frees a slot).
- The port table, `port_send`, broadcast and opening ports: the threads share that table without a common lock, so the code decides no interleaved property of it.
- `load_config` and `save_config` as a round trip: saving omits some of the fields that loading reads.
- The SDK, the example plugins and the remaining plumbing.
