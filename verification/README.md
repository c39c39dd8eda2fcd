# Interactive game messaging: a verified model

The platform moves game data over two protocols. OSC messages and bundles travel in UDP packets; XMPP carries
presence and chat between the clients and the game engine. This project models both, in Dafny, and proves what they
do on every input, in every run and under every interleaving.

**OSC, from objects to bytes and back.** `OscObjects` has messages and bundles as heap objects with their
hand-written, appending copies, and an ownership invariant over all live arguments. `PacketStream` is the packet
writer with its single buffer: arguments grow from the front, type tags from the back, and size slots hold links to
the enclosing slot until they are patched. `OscSender` walks a bundle tree and is proved to put exactly the
closed-form encoding of `OscWire` on the wire; `WireFormat` says which bytes that is, place by place.
`ReceivedMessages` and `ReceivedBundles` are the reader, on arbitrary bytes; what it comes to is a result, an
exception, a failed assertion, a read behind a message or a loop without end, and `AcceptedMessages` and `ReadPackets`
say for which bytes. `OscRoundTrip` joins sender and reader: which bundles arrive unchanged, and what happens to all
others. `BundleTree` has the inverse of the sender on whole trees. `Binary32` has the conversions between int32 and
float that the typed getters make.

**The listener.** `OscListener` has the queue and the callback: no message is lost or duplicated. `ListenerLifecycle`
has the control thread and the socket threads as interleaved steps: starting, stopping, the break flag, join and
delete; `ListenerRuns` what setup and shutdown come to along every run.

**XMPP.** `SubscriptionStates` and `PresenceHandshake` model two clients that answer every subscription request with
one of their own, their servers, and the channels in between; every run ends, with both sides subscribed, and
`PresenceRuns` says how it begins, that it can always end, and that nothing is lost on the way.
`RosterItem` has the subscription type that a client shows. `AccountRegistration`, `XmppClient` and `XmppRuns` have
connecting, one-shot registration, the state queue and the roster cache, as objects whose methods are proved against
a step function, and theorems about all runs of that function; `XmppEvents` tells every part of the client's state by
the events alone.

**The load generator** of the mock client: whose turn it is, and the pause in between.

What the source changes in place is a class with methods here (packet stream, messages, bundles, listener,
registration, client); what it computes is a function; the threads and the network are steps of a state machine.

## Results that differ from what the code or its documentation suggests

- The receive buffer has 4098 bytes, which is not a multiple of 4. Every bundle packet that is longer is cut off and
  then refused as a whole, although bundles of up to 32768 and messages of up to 16384 bytes are sent
  (`OscRoundTrip.LongPacketLost`). Nothing catches the exception, so that it ends the process
  (`ListenerRuns.LongBundleEnds`).
- `ReceivedBundle::Init` adds 4 to an element size in 32 bits. For the size 0xFFFFFFFC the sum is zero and the loop
  never ends; it ends for all bundles in which it does not get to such a size (`ReceivedBundles.WalkEnds`).
- `ReceivedMessage::Init` constructs the exceptions for blobs without throwing them, so that the size of a blob is read
  even where the message has ended. This happens exactly if fewer than four bytes are left for it
  (`AcceptedMessages.ReadsBehind`).
- A message whose address starts with `#` is taken for a bundle (`OscRoundTrip.ArrivesCut`, `BundleTree.TreeRoundTrip`).
- Strings are cut at their first NUL (`OscRoundTrip.ArrivesUnchanged`).
- `shutdown` waits for ever if `AsynchronousBreak` comes before `Run` has cleared its flag, or if the socket thread is
  caught in the endless loop above, which a packet announced before the break may do after it, too. In all other cases
  the process ends or the thread stops after three more steps at most, and the wait with it
  (`ListenerLifecycle.ShutdownReturns`, `ListenerLifecycle.ThreadStops`).
- `OscListener.h:56-59` says that nothing waits once a callback is registered. What was queued before still does
  (`OscListener.WaitingWithCallback`). The model follows the code.
- `AccountRegistration::init` leaves an earlier success in place when the password is empty. If a connect with user,
  password and host is followed by one without a password, the client may reconnect and arm its flag again without end.
  With all other sequences of calls every attempt is paid for by a connect or by a successful registration
  (`XmppRuns.BudgetKept`).
- Assigning a message or a bundle appends to what the target holds, so that the two are equal only if the target was
  empty (`OscObjects.Message.Copy`, `OscObjects.Bundle.Copy`).
- A requested rate above 1000 messages a second makes the pause zero, which is replaced by 5 ms, longer than the
  pauses of the rates from 201 to 1000 (`LoadGenerator.DelayJumps`).

## Conventions

`dafny verify dfyconfig.toml` checks the whole project. Floats are 32-bit patterns. Positions in a packet are offsets
from its first byte. `hide` statements only keep definitions out of a proof that does not need them.

Assertions (`assert`) of the source are enabled: nothing in the repository defines `NDEBUG`. `uint32` has 32 bits and
pointers have 64. A packet has fewer than 2^31 bytes, since its size is an `int`. A read behind a message ends the
model of its packet: what the bytes there are is not decided by the message.

The tables of RFC 3921 are those of sections 9.2 and 9.3, with the automatic reply that its section 9.3 recommends
always sent.

## Model

| member | source | states |
|---|---|---|
| `Bytes.CString` | product/source/OscSender.cpp:125-132 | what c_str() hands over of a string is its longest NUL-free prefix, followed by a NUL if anything follows |
| `Bytes.CStringUnique` | product/source/OscSender.cpp:125-132 | no other prefix has these properties |
| `Bytes.CStringWhole` | product/source/OscSender.cpp:125-132 | a string is handed over whole if and only if it contains no NUL |
| `Bytes.Str4` | product/source/osc/OscOutboundPacketStream.cpp:339-348 | a string slot holds the string and NULs only, and ends at the first 4-byte boundary behind the string and one NUL |
| `Bytes.RoundUp4` | product/source/osc/OscOutboundPacketStream.cpp:133-136 | the rounded size is not smaller and at most 3 larger |
| `Bytes.RoundUp4Aligned` | product/source/osc/OscOutboundPacketStream.cpp:133-136 | RoundUp4 yields whole words |
| `Bytes.AlignedMod` | product/source/osc/OscReceivedElements.cpp:541-545 | whole words by recursion are exactly the multiples of 4 that the reader asks for |
| `Bytes.BigEndian32RoundTrip` | product/source/osc/OscOutboundPacketStream.cpp:65-82 | reading the four bytes written for a 32-bit value gives the value back |
| `Bytes.BigEndian32At` | product/source/osc/OscOutboundPacketStream.cpp:65-82 | the most significant byte comes first: each of the four bytes is the digit, to the base 256, of its place |
| `Bytes.BigEndian32Order` | product/source/osc/OscOutboundPacketStream.cpp:65-82 | bytes compared from the left are in the order of the numbers |
| `Bytes.HostUInt32RoundTrip` | product/source/osc/OscOutboundPacketStream.cpp:158-203 | an offset stored in a size slot is read back unchanged |
| `OscWire.MessageAligned` | product/source/osc/OscOutboundPacketStream.cpp:359-409 | every message encoding is a multiple of 4 bytes and at least 8 |
| `OscWire.BundleAligned` | product/source/osc/OscOutboundPacketStream.cpp:296-327 | every bundle encoding, at any depth, is a multiple of 4 bytes and at least 16 |
| `WireFormat.ArgumentsOnWire` | product/source/osc/OscOutboundPacketStream.cpp:444-593 | at the place of every argument of an encoded message: an integer in two's complement or a float pattern, most significant byte first, or the C string and NULs up to the boundary |
| `WireFormat.ElementsOnWire` | product/source/osc/OscOutboundPacketStream.cpp:158-203 | every element of an encoded bundle stands behind its size, most significant byte first, and the next one follows directly |
| `WireFormat.FullMessageBytes` | product/source/OscSender.cpp:123-138 | all bytes of a message with the arguments 256, -2, 1.0 and "hi" |
| `WireFormat.WholeBundleBytes` | product/source/OscSender.cpp:110-121 | all bytes of a bundle with a sub-bundle and that message: the sub-bundle comes first |
| `PacketStream.OutboundPacketStream.constructor` | product/source/osc/OscOutboundPacketStream.cpp:139-149 | a new stream is valid, empty, and writes only into its own buffer |
| `PacketStream.OutboundPacketStream.BeginElement` | product/source/osc/OscOutboundPacketStream.cpp:158-176 | the outermost element gets no size slot; any other one gets a slot holding the offset of the enclosing slot |
| `PacketStream.OutboundPacketStream.EndElement` | product/source/osc/OscOutboundPacketStream.cpp:179-203 | the ended element becomes, behind its size, the last part of the enclosing element, or is finished if it is the outermost; the slot is left holding the size and the enclosing slot becomes current |
| `PacketStream.OutboundPacketStream.PatchSize` | product/source/osc/OscOutboundPacketStream.cpp:188-202 | exactly the four bytes of the slot change, from the link to the size, and the link is returned |
| `PacketStream.CloseLayout` | product/source/osc/OscOutboundPacketStream.cpp:179-203 | replacing the link by the size turns the buffer of the open element into the buffer of the enclosing element with one more finished part |
| `PacketStream.OutboundPacketStream.BeginBundle` | product/source/osc/OscOutboundPacketStream.cpp:296-312 | opens an element that starts with "#bundle" and the time tag 1, exactly when no message is in progress and it fits; otherwise it reports the error and changes nothing |
| `PacketStream.OutboundPacketStream.EndBundle` | product/source/osc/OscOutboundPacketStream.cpp:315-327 | closes the innermost element exactly when there is one and no message is in progress; otherwise nothing changes |
| `PacketStream.OutboundPacketStream.BeginMessage` | product/source/osc/OscOutboundPacketStream.cpp:330-356 | opens an element that starts with the padded address, exactly when no message is in progress and it fits; otherwise nothing changes |
| `PacketStream.OutboundPacketStream.PutInt32` | product/source/osc/OscOutboundPacketStream.cpp:444-453 | appends the tag i and the big-endian value exactly when the space test allows it, inside a message or not; otherwise nothing changes |
| `PacketStream.OutboundPacketStream.PutFloat` | product/source/osc/OscOutboundPacketStream.cpp:456-481 | appends the tag f and the big-endian pattern, on the same condition |
| `PacketStream.OutboundPacketStream.PutString` | product/source/osc/OscOutboundPacketStream.cpp:576-593 | appends the tag s and the padded string, on the same condition |
| `PacketStream.OutboundPacketStream.PushTag` | product/source/osc/OscOutboundPacketStream.cpp:447-447 | the tags grow downwards from the end of the buffer and never reach the arguments |
| `PacketStream.OutboundPacketStream.Move` | product/source/osc/OscOutboundPacketStream.cpp:378-378 | an overlapping move copies the old bytes and leaves all others alone |
| `PacketStream.OutboundPacketStream.WriteTypeTags` | product/source/osc/OscOutboundPacketStream.cpp:380-387 | the reversed tags become the comma, the tags in order, and padding; nothing outside the slot changes |
| `PacketStream.OutboundPacketStream.InsertTypeTags` | product/source/osc/OscOutboundPacketStream.cpp:366-400 | the type tag string ends up between the address and the unchanged arguments |
| `PacketStream.OutboundPacketStream.EndMessage` | product/source/osc/OscOutboundPacketStream.cpp:359-409 | the message is closed as address, type tag string and arguments, in that order |
| `PacketStream.OutboundPacketStream.WriteString` | product/source/osc/OscOutboundPacketStream.cpp:339-348 | writes exactly the padded string and nothing outside its slot |
| `OscObjects.OneOwner` | product/source/OscMessage.h:66-66 | every live argument belongs to exactly one live message and is of one of the three types |
| `OscObjects.Heap.Delete` | product/source/OscMessage.cpp:38-40 | only a live argument may be deleted (every call proves it) |
| `OscObjects.Message.constructor` | product/source/OscMessage.h:38-38 | an empty message; nothing else on the heap changes |
| `OscObjects.Message.CopyOf` | product/source/OscMessage.h:40-40 | copy construction gives an equal message made of fresh arguments |
| `OscObjects.Message.Copy` | product/source/OscMessage.cpp:125-148 | for distinct objects copying ends, replaces address and endpoint, appends fresh equal arguments behind those of the target, leaves the source alone, and frees nothing; the two are equal afterwards if and only if the target had no arguments |
| `OscObjects.Message.CopyArg` | product/source/OscMessage.cpp:133-145 | the branch that throws for an argument of another type cannot be reached |
| `OscObjects.Message.Push` | product/source/OscMessage.cpp:110-123 | one fresh argument is appended and becomes the only new live object |
| `OscObjects.Message.Clear` | product/source/OscMessage.cpp:36-43 | deletes exactly the arguments of this message, each once, and leaves every other message valid and unchanged |
| `OscObjects.Message.Destroy` | product/source/OscMessage.cpp:31-34 | a destroyed message leaves no argument behind |
| `OscObjects.Message.SetAddress` | product/source/OscMessage.h:49-49 | only the address of this message changes |
| `OscObjects.Message.SetRemoteEndpoint` | product/source/OscMessage.h:50-50 | only the endpoint of this message changes |
| `OscObjects.Message.GetArgAsInt32` | product/source/OscMessage.cpp:68-77 | value, conversion, wrong type, index out of bounds, and no defined result below zero, decided by the value of the message |
| `OscObjects.Message.GetArgAsFloat` | product/source/OscMessage.cpp:79-88 | the same for float; a converted integer becomes finite bits that no float beats, with the even tie |
| `OscObjects.ReadThereAndBack` | product/source/OscMessage.cpp:68-88 | an integer read as a float and that float read as an integer: a result exactly up to 2^31 - 65, within 64, and the integer itself up to 2^24 |
| `OscObjects.Message.GetArgAsString` | product/source/OscMessage.cpp:90-108 | the same for strings, without conversion |
| `OscObjects.Bundle.constructor` | product/source/OscBundle.cpp:32-35 | an empty tree |
| `OscObjects.Bundle.AddMessage` | product/source/OscBundle.cpp:61-65 | a fresh deep copy is appended; the tree stays free of sharing and nothing is freed |
| `OscObjects.Bundle.AddBundle` | product/source/OscBundle.cpp:56-59 | a fresh deep copy of the whole tree is appended, even if the bundle is added to itself |
| `OscObjects.Bundle.CopyOf` | product/source/OscBundle.h:38-38 | copy construction gives a structurally equal tree of fresh objects at every depth |
| `OscObjects.Bundle.Copy` | product/source/OscBundle.cpp:42-54 | for separate trees copying ends and appends: sub-bundles behind sub-bundles, messages behind messages; the two are equal afterwards if and only if the target was empty |
| `OscObjects.Bundle.Clear` | product/source/OscBundle.h:43-43 | destroys every message of the tree once and nothing outside it |
| `OscObjects.Bundle.Destroy` | product/source/OscBundle.cpp:37-40 | the same for destruction, which runs in the reverse order of the members |
| `OscSender.AppendArg` | product/source/OscSender.cpp:126-136 | each argument goes to the operator of its type, and the branch that throws cannot be reached |
| `OscSender.AppendMessage` | product/source/OscSender.cpp:123-138 | writes the closed-form encoding of the message as one element; it succeeds exactly when slot and encoding fit |
| `OscSender.AppendBundle` | product/source/OscSender.cpp:110-121 | writes the closed-form recursive encoding of the whole tree as one element; it succeeds exactly when slot and encoding fit |
| `OscSender.SendBundle` | product/source/OscSender.cpp:85-95 | sends exactly the encoding of the bundle if that has at most 32768 bytes, and nothing otherwise |
| `OscSender.SendMessage` | product/source/OscSender.cpp:97-108 | sends exactly the packet of the singleton bundle if that has at most 16384 bytes, and nothing otherwise |
| `OscSender.WrittenOne` | product/source/OscSender.cpp:113-119 | each element written extends the open bundle by its size and its bytes |
| `ReceivedMessages.FindStr4End` | product/source/osc/OscReceivedElements.cpp:59-77 | finds the first word at or behind the position that ends in NUL, or reports that there is none before the end |
| `ReceivedMessages.FindStr4EndUnchecked` | product/source/osc/OscReceivedElements.cpp:43-54 | agrees with the checked variant wherever that finds an end, so it does not leave the message |
| `ReceivedMessages.Init` | product/source/osc/OscReceivedElements.cpp:539-653 | opens a message as the recursive definition says, with blobs unchecked: it accepts, refuses, or reads behind the message |
| `ReceivedMessages.CheckArguments` | product/source/osc/OscReceivedElements.cpp:584-650 | the loop over the tags looks at a tag before it tests for the end |
| `ReceivedMessages.CheckArgument` | product/source/osc/OscReceivedElements.cpp:585-647 | the next argument position for every known type; the size of a blob is read wherever it is, and the position may pass the end |
| `ReceivedMessages.Advance` | product/source/osc/OscReceivedElements.cpp:446-509 | steps as far as the check at opening did, for every type |
| `ReceivedMessages.Checked` | product/source/osc/OscReceivedElements.cpp:584-650 | every step of the iteration has been made when the message was opened |
| `ReceivedMessages.CollectArguments` | product/source/OscListener.cpp:139-149 | the arguments read are those between the tags, in order, up to one of a type the listener asserts not to get |
| `ReceivedMessages.BuildMessage` | product/source/OscListener.cpp:129-149 | for arbitrary bytes: the message rebuilt, or how it ends |
| `AcceptedMessages.OpenedExactly` | product/source/osc/OscReceivedElements.cpp:539-653 | a message is accepted if and only if it is an address, type tags behind a comma, and what the tags announce, one behind the other; and which ones are accepted without arguments |
| `AcceptedMessages.Str4EndExactly` | product/source/osc/OscReceivedElements.cpp:59-77 | a string with its padding is one word that starts with NUL, or words of which only the last ends in NUL |
| `AcceptedMessages.SkipExactly` | product/source/osc/OscReceivedElements.cpp:585-647 | the bytes of one argument, by its type |
| `AcceptedMessages.ReadsBehind` | product/source/osc/OscReceivedElements.cpp:628-638 | opening reads behind the message if and only if the arguments announced by its first tags lie one behind the other and the next tag is that of a blob of which fewer than four bytes are left |
| `AcceptedMessages.MissingBlob` | product/source/osc/OscReceivedElements.cpp:628-638 | an example: an address and the tag of a blob that is not there |
| `ReceivedBundles.InitBundle` | product/source/osc/OscReceivedElements.cpp:671-712 | accepts, refuses or never ends, as the walk over the element sizes does |
| `ReceivedBundles.BundleChecked` | product/source/osc/OscReceivedElements.cpp:671-712 | accepted are exactly the byte strings with the mark, the header and element sizes that add up |
| `ReceivedBundles.WalkEnds` | product/source/osc/OscReceivedElements.cpp:694-708 | the walk ends if and only if no size field it gets to is 0xFFFFFFFC; otherwise the loop goes round for ever |
| `ReceivedBundles.Advanced` | product/source/osc/OscReceivedElements.cpp:703-703 | 4 and the element size are added in 32 bits |
| `ReceivedBundles.StuckSize` | product/source/osc/OscReceivedElements.cpp:699-703 | with 32 bits 0xFFFFFFFC is the only whole number of words for which the sum wraps around, to zero |
| `ReceivedBundles.StuckPacket` | product/source/osc/OscReceivedElements.cpp:694-708 | an example: the bundle of which the only element has that size |
| `ReceivedBundles.ProcessBundle` | product/source/osc/OscPacketListener.h:41-53 | walks the elements in order and stops at the first one that does not end regularly |
| `ReceivedBundles.ProcessPacket` | product/source/osc/OscPacketListener.h:59-67 | for arbitrary bytes: which messages reach the listener, in order, and how the processing ends |
| `ReadPackets.BuiltExactly` | product/source/OscListener.cpp:129-149 | exactly which message is built from which bytes: the C string at the start is its address, and its arguments are those announced by the tags, one behind the other, each of the value that stands at its place |
| `ReadPackets.UnsupportedExactly` | product/source/OscListener.cpp:139-149 | the assertion fails exactly at an accepted message with a tag other than i, f and s |
| `ReadPackets.NumberRead` | product/source/osc/OscOutboundPacketStream.cpp:65-82 | four bytes are read as the number whose digits they are, most significant first |
| `ReadPackets.FramedExactly` | product/source/osc/OscReceivedElements.cpp:694-708 | the element sizes fit exactly if the bytes can be divided into elements, each behind its size |
| `ReadPackets.BundleDelivered` | product/source/osc/OscPacketListener.h:41-53 | a bundle is accepted exactly if its elements can be laid out to its end; they are processed in order up to and with the first one that does not end regularly, whose ending is that of the bundle |
| `OscRoundTrip.MessageRoundTrip` | product/source/OscSender.cpp:123-138 | every message is read back, with its strings cut at their first NUL and everything else unchanged |
| `OscRoundTrip.BundleRoundTrip` | product/source/OscSender.cpp:110-121 | every bundle of any depth without "#" addresses is delivered as its depth-first flattening, sub-bundles before messages |
| `OscRoundTrip.ArrivesCut` | product/source/osc/OscPacketListener.h:41-67 | the flattening is delivered (strings cut at NUL) if and only if no address starts with "#" |
| `OscRoundTrip.ArrivesUnchanged` | product/source/ip/posix/UdpSocket.cpp:408-452 | a bundle arrives unchanged if and only if it fits the receive buffer, no address starts with "#" and no string contains a NUL |
| `OscRoundTrip.LongPacketLost` | product/source/ip/posix/UdpSocket.cpp:408-449 | of every bundle packet longer than the 4098-byte buffer nothing is delivered, since 4098 is not a multiple of 4 |
| `OscRoundTrip.LongStringLost` | product/source/ip/posix/UdpSocket.cpp:408-408 | an example: a message that can be sent but is never received |
| `OscRoundTrip.HashMessageVanishes` | product/source/osc/OscReceivedElements.cpp:179-189 | an example: a message to "#bundle" is taken for an empty bundle |
| `OscRoundTrip.ReceivedFromBundles` | product/source/osc/OscPacketListener.h:46-52 | the order of arrival is the depth-first flattening |
| `OscRoundTrip.WireMessagesUnchanged` | product/source/OscSender.cpp:125-132 | messages arrive uncut if and only if all their strings are NUL-free |
| `BundleTree.TreeRoundTrip` | product/source/OscSender.cpp:110-138 | parsing undoes printing for every tree of any depth: the same tree comes back with its strings cut at NULs if and only if no address starts with "#", and unchanged if and only if its strings are NUL-free, too |
| `BundleTree.PacketsDiffer` | product/source/OscSender.cpp:110-138 | two different trees with whole strings and without "#" addresses never make the same packet |
| `BundleTree.ParsedIfDelivered` | product/source/osc/OscPacketListener.h:41-53 | a packet describes a tree if and only if all its elements are processed to the end |
| `BundleTree.ParsedHashFree` | product/source/osc/OscPacketListener.h:46-52 | no message of a tree read from a packet has an address that starts with "#" |
| `Binary32.ThereAndBack` | product/source/OscMessage.cpp:68-88 | int32 to float and back: defined exactly up to 2^31 - 65, within 64, exact exactly for multiples of the float spacing, so for all |n| up to 2^24 |
| `Binary32.Monotone` | product/source/OscMessage.cpp:79-88 | the conversion keeps the order of numbers |
| `Binary32.NearestFloat` | product/source/OscMessage.cpp:79-88 | no float at all is closer to n than the chosen one, and on a tie its significand is even (section 4.3.1 of IEEE 754-2008) |
| `Binary32.Encodes` | product/source/OscMessage.cpp:79-88 | the bit pattern stands for exactly the rounded integer |
| `Binary32.IntToFloatNearest` | product/source/OscMessage.cpp:79-88 | the float an integer becomes is finite, no finite float is closer, and on a tie its pattern is even |
| `Binary32.FloatToIntExactly` | product/source/OscMessage.cpp:68-77 | on every pattern: a finite float becomes the integer truncated towards zero exactly if that fits; nothing else has a defined result |
| `Binary32.KnownFloats` | product/source/OscMessage.cpp:68-77 | the integers that some well-known floats become |
| `Binary32.KnownIntegers` | product/source/OscMessage.cpp:79-88 | the floats that some integers become |
| `OscListener.Partition` | product/source/OscListener.cpp:151-182 | over every run: arrivals without a callback are polled ++ waiting in order, the others are the callback calls in order; none lost, none twice |
| `OscListener.WaitingStays` | product/source/OscListener.cpp:162-182 | without a poll a waiting message stays first in the queue |
| `OscListener.WaitingWithCallback` | product/source/OscListener.h:56-59 | "nothing waits once a callback is registered" holds if and only if what was queued before has been polled |
| `OscListener.WaitingAfterInstall` | product/source/OscListener.h:56-59 | an example: one message, then a callback, and the message still waits |
| `OscListener.BundleQueued` | product/source/OscListener.cpp:129-160 | end to end: what a received bundle leaves in the queue |
| `OscListener.OscListener.SetMessageReceivedCb` | product/source/OscListener.cpp:56-56 | only the callback changes; what waits keeps waiting |
| `OscListener.OscListener.HasWaitingMessages` | product/source/OscListener.cpp:162-166 | true if and only if a message waits |
| `OscListener.OscListener.ProcessMessage` | product/source/OscListener.cpp:129-160 | the message is queued, or handed on and deleted, and no other message is touched |
| `OscListener.OscListener.ProcessPacket` | product/source/osc/OscPacketListener.h:59-67 | the messages of a packet are processed in order up to the point where it ends, and how it ends |
| `OscListener.OscListener.GetNextMessage` | product/source/OscListener.cpp:168-182 | takes out the oldest message, deletes the queued object, and appends its contents to the given message; a fresh one becomes equal to it |
| `ListenerLifecycle.NextInv` | product/source/OscListener.cpp:85-127 | the start/stop invariant is kept by every step of either thread |
| `ListenerLifecycle.Safety` | product/source/OscListener.cpp:85-127 | in every reachable state: at most one socket thread, its socket is not deleted, setup retires the old one first, and the wait ends only behind Run |
| `ListenerRuns.CallsComplete` | product/source/OscListener.cpp:85-114 | whatever is interleaved: a setup that returns has created one more socket, with one thread just started on it, and every earlier socket is deleted; a shutdown that returns leaves no thread and no socket |
| `ListenerRuns.CallsCanReturn` | product/source/OscListener.cpp:85-127 | setup and shutdown can return if and only if the socket thread is not in the endless walk when they are called |
| `ListenerRuns.EndsExactly` | product/source/OscListener.cpp:121-149 | the process ends exactly at the first packet that is refused, makes the assertion fail or is read behind its end |
| `ListenerRuns.LongBundleEnds` | product/source/ip/posix/UdpSocket.cpp:408-452 | an example: any bundle longer than the receive buffer ends the process |
| `ListenerLifecycle.ShutdownTwice` | product/source/OscListener.cpp:98-114 | a second shutdown changes nothing |
| `ListenerLifecycle.ShutdownReturns` | product/source/ip/posix/UdpSocket.cpp:373-487 | by where the thread is when the break is asked for: the wait can be left if and only if it has entered Run and is not in the endless walk, and otherwise no continuation leaves it; it can be left in every continuation if and only if, in addition, the thread is not between the test of the flag and the processing of a packet or no endless packet may arrive |
| `ListenerLifecycle.EnteredIsEnough` | product/source/ip/posix/UdpSocket.cpp:414-453 | in runs without endless packets the one condition is that the thread has entered Run |
| `ListenerLifecycle.ShutdownCanHangInWalk` | product/source/ip/posix/UdpSocket.cpp:439-449 | an example: a bundle with the element size 0xFFFFFFFC, taken before or after the break, keeps a thread that has entered Run for ever |
| `ListenerLifecycle.WaitCanEnd` | product/source/OscListener.cpp:98-109 | a wait that can end stays one that can, along every run in which the process lives and the thread does not take an endless packet |
| `ListenerLifecycle.ThreadStops` | product/source/ip/posix/UdpSocket.cpp:414-453 | as long as such a wait goes on the socket thread makes three steps at most |
| `ListenerLifecycle.LeavesWhenStopped` | product/source/OscListener.cpp:103-109 | after them the next step of the control thread leaves the wait, and until then the socket thread can make another one |
| `ListenerLifecycle.LostForever` | product/source/ip/posix/UdpSocket.cpp:373-375 | a wait whose break is lost, or whose thread is in the endless walk, stays so in every continuation |
| `ListenerLifecycle.ShutdownCanHang` | product/source/OscListener.cpp:85-114 | an example: a run of six steps to a shutdown that never returns, and no shorter run gets there |
| `SubscriptionStates.TablesByHalves` | product/extern/gloox/gloox.h:1213-1236 | the tables of sections 9.2 and 9.3 of RFC 3921 act on the two halves of a state independently and never move one back |
| `SubscriptionStates.HalvesDetermine` | product/extern/gloox/gloox.h:1213-1236 | the nine states are the combinations of two halves |
| `PresenceHandshake.NextInv` | product/source/XmppListener.cpp:161-168 | every step of clients, servers and channels keeps the mirror of requests and views |
| `PresenceHandshake.EndsAgree` | product/source/XmppListener.cpp:161-168 | in every reachable state the two ends agree up to stanzas in flight |
| `PresenceHandshake.NextMeasure` | product/source/XmppListener.cpp:161-168 | every step but a roster load decreases the measure |
| `PresenceHandshake.RunMeasure` | product/source/XmppListener.cpp:161-168 | so the length of every run is bounded by the measure and the roster loads |
| `PresenceHandshake.HandshakeCompletes` | product/source/XmppListener.cpp:161-168 | every run ends: at most 12 steps plus 4 per roster load, one request handled per client, and at rest both ends are in state "both" if anybody asked |
| `PresenceRuns.BeginsWithRoster` | product/source/XmppClient.cpp:262-275 | if some client has ever loaded a roster without the other one, in whatever run, both ends are "both" once nothing is in flight; if none has, nothing at all has happened |
| `PresenceRuns.CanComplete` | product/source/XmppListener.cpp:161-168 | after every run the exchange can be brought to rest without loading rosters, and then both ends are "both" if a roster has lacked the contact |
| `PresenceRuns.StanzasConserved` | product/source/XmppListener.cpp:161-168 | over every run, at every stage between the clients: what has passed and what is in flight add up to what was sent; each client asks once for each roster that lacks the contact and each request it sees, and is told of the consent once |
| `PresenceRuns.NeverOneSided` | product/source/XmppListener.cpp:161-168 | since a client asks before it agrees and stanzas arrive in order, no end is ever in "from" or "to" |
| `RosterItem.RosterItemData.SetSubscription` | product/extern/gloox/rosteritemdata.h:134-153 | the type for every pair of attributes; an unrecognised subscription keeps the previous type |
| `RosterItem.LastRecognised` | product/extern/gloox/rosteritemdata.h:134-153 | only the last push with a recognised subscription counts, and each half of the type is what its attributes say of it |
| `RosterItem.PushedState` | product/extern/gloox/rosteritemdata.h:134-153 | the type shown is the server's state with a pending request of the contact left out |
| `RosterItem.ShownAlongRun` | product/extern/gloox/rosteritemdata.h:134-153 | a client that is told of every change of the attributes goes on to show the state, along every run of the handshake |
| `RosterItem.ShownFromStart` | product/extern/gloox/rosteritemdata.h:134-153 | from the first roster on, whatever was shown before |
| `RosterItem.FewPushes` | product/extern/gloox/rosteritemdata.h:134-153 | in every run a client is told of three changes at most |
| `RosterItem.ShownAtTheEnd` | product/extern/gloox/rosteritemdata.h:134-153 | both clients show "both" once a roster has lacked the contact and the handshake is over |
| `AccountRegistration.AccountRegistration.constructor` | product/source/AccountRegistration.cpp:8-11 | a new object is not registered with anything and its status is incomplete |
| `AccountRegistration.AccountRegistration.Init` | product/source/AccountRegistration.cpp:19-60 | the receive loop ends at the first outcome or error; incomplete credentials change nothing |
| `AccountRegistration.AccountRegistration.RunCallbacks` | product/source/AccountRegistration.cpp:74-96 | what each callback does, as long as the handler is registered |
| `AccountRegistration.InitOutcome` | product/source/AccountRegistration.cpp:19-96 | with complete credentials and a connection: an account is asked for, with the credentials of init, exactly as often as fields are received before a success and before the loop stops; the status is success, failure or incomplete by what was received till then, and success is final; incomplete credentials change nothing |
| `AccountRegistration.LoopResult` | product/source/AccountRegistration.cpp:50-60 | what the receive loop comes to, by the places of the callbacks in what the server sends |
| `AccountRegistration.CallbacksResult` | product/source/AccountRegistration.cpp:74-96 | what the callbacks of one receive call come to |
| `XmppClient.Listener.Setup` | product/source/XmppListener.cpp:28-42 | there is a client from then on; an empty server keeps the previous one |
| `XmppClient.Listener.SubscribeTo` | product/source/XmppListener.cpp:208-216 | a request is sent exactly while connected and with a client |
| `XmppClient.Client.constructor` | product/source/XmppClient.cpp:54-57 | the initial state |
| `XmppClient.Client.Start` | product/source/XmppClient.cpp:65-88 | a new XMPP client is set up and all three queues are cleared before the thread is known to start; credentials and flag are set only after |
| `XmppClient.Client.Connect` | product/source/XmppClient.cpp:65-88 | the whole new state after a call by the user |
| `XmppClient.Client.Disconnect` | product/source/XmppClient.cpp:90-110 | disarms registration exactly while connected |
| `XmppClient.Client.OnConnect` | product/source/XmppListener.cpp:76-83 | connected, and reported |
| `XmppClient.Client.OnTLSConnect` | product/source/XmppListener.cpp:92-111 | connected, and reported |
| `XmppClient.Client.Register` | product/source/XmppClient.cpp:170-176 | registers with the stored credentials, disarms, and reconnects exactly if the status is success |
| `XmppClient.Client.OnDisconnect` | product/source/XmppClient.cpp:125-188 | an authentication failure while armed leads to a registration instead of a report |
| `XmppClient.Client.HandleRoster` | product/source/XmppClient.cpp:238-283 | the cache holds exactly the names of the roster; a client other than the docent asks for the missing game engine, while connected |
| `XmppClient.Client.HandleRosterPresence` | product/source/XmppClient.cpp:285-297 | only a known peer changes; every presence is queued |
| `XmppClient.Client.HandleMessage` | product/source/XmppClient.cpp:215-228 | every message is queued with its sender |
| `XmppClient.Client.HandleSubscriptionRequest` | product/source/XmppListener.cpp:161-168 | every request is answered by a request and accepted |
| `XmppClient.Client.PopState` | product/source/XmppClient.h:199-199 | taking the oldest state out of the queue that the client hands out |
| `XmppClient.Client.GetStatusForPeer` | product/source/XmppClient.cpp:320-327 | the status in the cache, or invalid |
| `XmppClient.Client.IsPeerConnected` | product/source/XmppClient.cpp:329-336 | the connected flag in the cache, or false |
| `XmppRuns.BudgetKept` | product/source/XmppClient.cpp:170-176 | for every sequence of calls of connect: attempts and a pending attempt are covered by connects and successes in all runs with these calls if and only if no call with user, password and host is followed by one with user and host, but without a password |
| `XmppRuns.BudgetWithStale` | product/source/XmppClient.cpp:65-188 | in every run they are covered if reconnections after a stale success are counted too |
| `XmppRuns.StaleForever` | product/source/AccountRegistration.cpp:22-24 | for every other sequence of calls and every n: a run with these calls, two of which get a thread, one success and n + 1 attempts |
| `XmppRuns.NoStale` | product/source/AccountRegistration.cpp:22-30 | with calls that meet this condition no stale success is ever used |
| `XmppRuns.AttemptsBounded` | product/source/XmppClient.cpp:170-176 | with such calls and a server that refuses a taken name (section 3.1 of XEP-0077), reconnections and successes are distinct accounts and attempts exceed connects by at most their number |
| `XmppRuns.OneAccount` | product/source/XmppClient.cpp:170-176 | one username on one server: at most one reconnection and at most one attempt more than connects |
| `XmppRuns.ReconnectionsCounted` | product/source/XmppClient.cpp:173-175 | every reconnection follows a success, its own or a stale one |
| `XmppRuns.CredentialsOfLastConnect` | product/source/XmppClient.cpp:81-87 | registrations and reconnections use the credentials of the last connect that started a thread |
| `XmppRuns.AccountsAskedFor` | product/source/AccountRegistration.cpp:74-82 | every account ever asked for carries credentials the user has connected with |
| `XmppRuns.DisconnectsConserved` | product/source/XmppClient.cpp:112-201 | every disconnect is reported or answered by a registration; the queue is what was pushed since it was cleared without what was taken out; the log tells whether the client is connected |
| `XmppRuns.RosterCache` | product/source/XmppClient.cpp:238-336 | in every run, across connections: the status of a peer is that of its last presence since the latest roster naming it, else invalid, and it counts as connected exactly below "unavailable" |
| `XmppRuns.QueuesHoldRecent` | product/source/XmppClient.cpp:65-79 | the queues for messages and presences hold what has arrived since they were last cleared, in order |
| `XmppEvents.ConnectionByEvents` | product/source/XmppClient.cpp:65-188 | in every run: connection, client, server, credentials and the registration in reserve are what the last event that concerns each of them says |
| `XmppEvents.AccountByEvents` | product/source/AccountRegistration.cpp:19-96 | in every run: the accounts asked for are exactly those of the registrations begun, each as often as fields came and with the credentials of the last connect; the status is that of the last of them |
| `XmppEvents.CountersByEvents` | product/source/XmppClient.cpp:65-188 | connects, attempts and successes count the steps they are meant to |
| `XmppEvents.StatesByEvents` | product/source/XmppClient.cpp:112-201 | the state queue is what the events since it was cleared report, in order, without what was taken out |
| `XmppEvents.RequestsByEvents` | product/source/XmppClient.cpp:238-275 | the requests sent are, in order, one to the sender of each request received and one to the game engine for each roster that lacks it, while connected and not the docent |
| `XmppEvents.PeerByPresence` | product/source/XmppClient.cpp:285-336 | each presence type gives the peer its status; a probe and an error count as invalid; connected are the first five |
| `XmppEvents.LatestStepIs` | product/source/XmppClient.cpp:65-188 | the position from which these lemmas read is the last one of its kind |
| `LoadGenerator.SendRounds` | product/source/IosClientMock.cpp:112-134 | after k messages client i of n has sent (k + n - 1 - i) / n |
| `LoadGenerator.Balanced` | product/source/IosClientMock.cpp:146-153 | no client is more than one message ahead of another |
| `LoadGenerator.TakesTurns` | product/source/IosClientMock.cpp:112-153 | message k is sent by client k modulo n, and the shares of all clients add up to k |
| `LoadGenerator.DelayKeepsRate` | product/source/IosClientMock.cpp:102-103 | the requested rate is kept if and only if it is at most 1000 a second; the pause is then the longest that keeps it, and the offered rate below twice the requested one |
| `LoadGenerator.DelayJumps` | product/source/IosClientMock.cpp:102-103 | above 1000 a second the pause is 5 ms, longer than for every rate from 201 to 1000 |
| `LoadGenerator.TooFast` | product/source/IosClientMock.cpp:102-103 | an example: 1001 messages a second for one client |

## Left out

- OscObjects.Message.GetArgAsString: the conversion of numbers to text with `%f` and `%i` is not modelled, because it is left to `sprintf`.
- OscObjects.Message.Copy: the target is another object than the source, because copying a non-empty message to itself does not end.
- OscObjects.Bundle.Copy: the two trees are separate, for the same reason.
- OscListener.OscListener.ProcessPacket: what follows a thrown exception or a failed assertion is not modelled (the source lets both end the process); the result only says that it has come to that.
- XmppClient.Client.HandleRosterPresence: the signal is not modelled; with the signal set, a presence of an unknown user dereferences the end of the map.
- XmppClient.Client.PopState: the source hands out whole queues by reference; only taking out the first state is modelled.
- XmppClient.Listener.Setup: of the XMPP client only its existence is modelled; the handlers registered with it, and that an earlier one is not deleted, are not.
- XmppClient.Client.Disconnect: joining the thread is a parameter, and the disconnect callback that follows is a step of its own.
- The copies that `std::vector` makes and destroys when it grows; only the elements it ends up with are modelled.
- Types the platform neither sends nor accepts (blobs, 64-bit numbers, characters, colours, MIDI, symbols, booleans, nil, infinitum): the checks and steps over them are modelled, reading and writing their values is not.
- The big-endian variants of the byte order code and the 64-bit branches of `OscTypes.h`.
- The sender's and the listener's sockets, `select`, the break pipe, timers, loss and reordering of UDP packets, and the text form of a remote endpoint.
- ListenerLifecycle.ShutdownReturns: that the callback of the application returns and does not call the listener back, and that `recvfrom` returns when `select` has announced data, is taken for granted.
- ListenerLifecycle.Processed: a packet that is refused or makes an assertion fail ends the process, since nothing catches the exception in the socket thread; so does a read behind a message, which comes to one of the two or to an access error.
- The start and stop of the listener in class form: `setup` and `shutdown` wait for another thread, so they are steps of a state machine and not methods.
- A setup that fails to bind its socket or to create its thread; the exception leaves setup, in the second case with a socket but no thread.
- Data races: the callback of the listener is set without its mutex, and the queues of the client are used by two threads without one; each call and callback is one atomic step.
- `sendMessage` and the signals of the client: they add only easy members.
- Bodies of gloox: connections, XML, SASL, TLS; its callbacks arrive as events, and `recv` brings what a parameter says.
- `AccountEraser` (nearly a copy of `AccountRegistration`), the echo listener, logging, the plugin interface and the Python scripts.
- `IosClientMock.mTotalClients` is never assigned in the source; it is taken to be the number of clients. Sending and random arguments are not modelled.
- A subscription of the game engine to itself, which its own roster leads to: servers ignore it.
- Requests to unsubscribe, which no code of the platform sends.
