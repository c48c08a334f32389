# Verification of the MQTT broker skeleton

A Dafny model of the parts of the broker that carry its logic, and proofs about them:

- **QoS 2 exchange** (`Qos2Client`, `Qos2Pipeline`, `Qos2Pair`, `Qos2Guarantees`, `ReceiveWindow`,
  `Qos2History`, `SlicedPackages`): the send and receive windows of `src/MqttClient.hpp`, first as a
  class with its handlers and completion callbacks, then as two such endpoints joined by in-order
  channels. Runs are arbitrary interleavings of starting a publication, completing a write and
  handling a packet, by either end. The receive window is also taken alone, against any peer.
- **Channel tree** (`Topics`, `ChannelPaths`, `ChannelTree`): topic splitting and checking
  (`src/CppUtils.hpp`, `src/ChTree.hpp`), the tree as a map from paths to nodes with the exact
  effect of each operation, and the heap tree of nodes, child lists and counters that refines it.
- **Wire format** (`RemainingLength`, `Wire`, `ConnectPacket`, `PublishPacket`, `TopicPackets`,
  `AckPackets`, `AsWrittenPackets`): the encoders and decoders of `src/mqtt/Protocol.cpp`.
- **Reader** (`Framing`, `SessionReader`, `AsWrittenReader`, `MessageStream`): the incremental reader of
  `src/MqttSession.hpp` over a socket that delivers the stream in arbitrary chunks.
- **Keep-alive** (`KeepAlive`): the rescheduling timer of `src/MqttSession.hpp`.

`dafny verify dfyconfig.toml` checks the whole project.

## Code and intent

Where the code keeps what it promises, it is modelled as it is: the tree operations `addChannel`,
`removeChannel` and `findNode`, `splitChannel`, `trim`, `encLen`, `decLen`, `length_ending`,
`do_read_len`, and the steps of the timer. Elsewhere the promised property is false of the code.
There the model holds both forms: the code as written, with exactly when it does what it should, and
the code with the correction named here, with the property proved.

| code | correction | as written |
|---|---|---|
| `_msg_rqueue` in the callback of PUBREL and in `onPubComp` (`src/MqttClient.hpp:253`, `:278`) | the send window, as the comments at 352-353 name the two | a run is as intended exactly until a PUBREL is written; with one publishing end it then throws |
| `Package` takes its message by value as the base class (`src/MqttClient.hpp:36-42`, called at `:219` and `:228`) | the message whole | the windows are those of whole messages, cut down to header and size; two publications are kept alike exactly when these agree |
| found test of `findChannel` (`src/ChTree.hpp:192`) | inverted, as its comment says | agrees with `findNode` only on channels that are rejected |
| `htonl` before `encLen`, and its result with a leading zero and in reverse order (`src/mqtt/Protocol.cpp:71`, `:891-920`) | the encoding of section 2.2.3 of MQTT 3.1.1 | fails for sizes whose low byte is 16 or more, and otherwise sends length 0 |
| length vectors with leading zeros and one byte short, `ntohl` of the result (`src/mqtt/Protocol.cpp:136-139` and its copies) | the field as sent | every size is decoded as 0 |
| ends of ranges without `step` (`src/mqtt/Protocol.cpp:144-198` and the other decoders) | counted from `step` | CONNECT and PUBLISH are never decoded, identifiers become 0 |
| double `htons` and `htonl` into sixteen bits (`src/mqtt/Protocol.cpp:80-81`, `:263-269`, `:537-538`, `:674-675`) | most significant byte first | the identifier of a PUBLISH does not reach the wire |
| declared sizes (`src/mqtt/Protocol.cpp:523`, `:661`; `src/mqtt/Protocol.hpp:380` never sets one) | the bytes of the body | too small by one or two bytes per topic |
| loop bounds and remainders that ignore the width of the length field, in sixteen bits (`src/mqtt/Protocol.cpp:314`, `:579`, `:642`, `:712`) and steps by two instead of the topic length (`:586`, `:719`) | the end of the packet, and the topic length | no topics; the results of a SUBACK are bytes 4 to 65533 of the buffer, so that it comes back exactly for one identifier, one length and periodic results |
| the return code of CONNACK read as four bytes (`src/mqtt/Protocol.cpp:241`) | one byte | read beyond the packet |
| dup and retain in the constructors of `MqttPublish` (`src/mqtt/Protocol.hpp:223`, `:228`) | swapped back | right exactly when both are equal |
| scan length, missing byte of the copies, and body bytes already read (`src/MqttSession.hpp:148`, `:157`, `:165`, `:181`), surplus bytes dropped | the bytes read are counted once, and surplus is kept | a stream is read right exactly when at every frame the reads happen to end with the length field |
| wildcards checked on the trimmed channel while the tree splits the untrimmed one, "//" rejected, only the first '+' and no zero byte looked at (`src/ChTree.hpp:137-164`, `:209`, `:243`) | none; `isChannel` is modelled as it is | differs from sections 4.7.1 and 4.7.3 of MQTT 3.1.1 exactly at a blank cut beside a wildcard, a later '+', a zero byte, "//", and blanks alone |
| `do_active` adds to whatever the timer holds, and nothing sets it before the login (`src/MqttSession.hpp:65-68`, `:417`) | none; what it holds is a parameter | the two-minute bound holds in every run exactly if it holds none or a time no later than a minute after the login |

## Model

| member | source | states |
|---|---|---|
| Qos2Client.MqttClient.OnPublish | src/MqttClient.hpp:188-239 | for either choice of what a package keeps: a QoS 2 PUBLISH, first or repeated, enters the receive window unless its identifier is there, and a PUBREC is queued; QoS 1 queues a PUBACK; QoS 0 changes nothing |
| Qos2Client.MqttClient.InsertReceived | src/MqttClient.hpp:219-230 | an identifier already in the window keeps the package it has; a new one gets what a package keeps of the message |
| Qos2Client.MqttClient.OnPubAck | src/MqttClient.hpp:241-244 | the identifier leaves the send window, nothing else changes |
| Qos2Client.MqttClient.OnPubRec | src/MqttClient.hpp:246-260 | a PUBREL with the same identifier is queued behind all pending writes; no window changes yet |
| Qos2Client.MqttClient.OnPubRel | src/MqttClient.hpp:262-275 | a PUBCOMP with the same identifier is queued; the receive window keeps its entry until that write is done |
| Qos2Client.MqttClient.OnPubComp | src/MqttClient.hpp:277-279 | the identifier leaves the window that is addressed and no other |
| Qos2Client.MqttClient.Deliver | src/MqttClient.hpp:74-122 | each packet of an exchange reaches its own handler |
| Qos2Client.MqttClient.Complete | src/MqttClient.hpp:221-270 | the callback of the oldest write throws exactly when the entry it looks up is missing; otherwise it sets the status, and for PUBCOMP the entry leaves; a failed write changes nothing but for PUBREC |
| Qos2Pipeline.MoveKeeps | src/MqttClient.hpp:188-279 | whichever packet of an exchange is next to be written or handled, the windows hold what that needs, and the invariant that ties queues, windows and history is kept |
| Qos2Pipeline.BeginKeeps | src/MqttClient.hpp:352-353 | starting a publication under an identifier that is free in the send window keeps that invariant |
| Qos2Pair.StepKeeps | src/MqttClient.hpp:188-279 | every step of either end keeps the invariant in both directions, no callback throws, and a step that starts nothing brings what is under way one move nearer to its end |
| Qos2Pair.RunKeeps | src/MqttClient.hpp:188-279 | the same over whole runs, from any state that satisfies the invariant |
| Qos2Guarantees.EveryRunIsExactlyOnce | src/MqttClient.hpp:212-279 | section 4.3.3 of MQTT 3.1.1: in every run each publication is stored at most once and in order, with its identifier and message, and released at the sender only after it was stored and released at the receiver; no callback throws |
| Qos2Guarantees.EveryRunHasOneToken | src/MqttClient.hpp:219-271 | corrected: in every reachable state an identifier is in the send window exactly while one wire packet or pending write carries it; membership and status of both windows say where that packet is; both windows hold the same message |
| Qos2Guarantees.NothingIsLost | src/MqttClient.hpp:212-279 | once nothing is under way, everything published was stored, freed and released, and all windows are empty |
| Qos2Guarantees.EveryRunCanFinish | src/MqttClient.hpp:212-279 | from every reachable state the writes and deliveries alone lead to that end, in at most eight steps for each publication under way |
| Qos2Guarantees.AsWrittenAgreesIff | src/MqttClient.hpp:246-279 | as written but for whole messages, with both ends publishing: a run is the intended run exactly as long as no write of a PUBREL has been completed, and no identifier is ever released |
| Qos2History.EndIsTrace | src/MqttClient.hpp:74-279 | each end of every run goes through what an endpoint with an arbitrary peer goes through |
| Qos2History.AsWrittenRunThrowsIff | src/MqttClient.hpp:188-279 | as written, with both ends publishing: a run throws exactly when some step completes a write whose callback looks up an identifier that no PUBLISH has brought to that end since it last left there |
| SlicedPackages.WindowKeepsHeaderAndSize | src/MqttClient.hpp:36-42 | as written, whatever the peer sends: the receive window throws when that of whole messages does, holds and gives up the same identifiers at the same times, and of the first PUBLISH since one last left keeps header bits and size |
| SlicedPackages.RunCuts | src/MqttClient.hpp:36-279 | as written, every run of two endpoints takes the steps of the run with whole messages, with the window of either choice, and its windows and history are those, cut down |
| SlicedPackages.KeptAlikeIff | src/MqttClient.hpp:36-42 | two publications are kept alike exactly when header bits and the length of topic and payload together agree |
| SlicedPackages.ReceivedAlikeIff | src/MqttClient.hpp:212-230 | after receiving one of two publications the endpoint is the same exactly when they are kept alike |
| SlicedPackages.TopicAndPayloadAreLost | src/MqttClient.hpp:212-230 | two publications with different topics and payloads that leave the same endpoint behind |
| Qos2Guarantees.AsWrittenThrowsIff | src/MqttClient.hpp:246-279 | as written, with publications in one direction: a run throws exactly when it completes the write of a PUBREL, and is the intended one otherwise |
| Qos2Guarantees.AsWrittenNothingIsReleased | src/MqttClient.hpp:246-279 | as written, no publication ever leaves the receive window and no identifier is released |
| Qos2Guarantees.AsWrittenFirstExchangeThrows | src/MqttClient.hpp:246-255 | as written, the first exchange throws at its sixth step and not before |
| ReceiveWindow.HeldIsFirstSinceRelease | src/MqttClient.hpp:74-279 | whatever packets the peer sends, whatever the endpoint publishes and however writes end: an identifier has been stored once more than it has left exactly while the window holds it, and then the window, with whole messages, holds that of the first PUBLISH since it last left; it leaves with a completed PUBCOMP, and as written also with one the peer sends |
| ReceiveWindow.CompletionThrowsIff | src/MqttClient.hpp:221-270 | after any such sequence the next completion throws exactly when it looks up an identifier for which no PUBLISH has arrived since it last left; with the corrected window, a PUBREL also when the send window lacks it |
| ReceiveWindow.RepeatedReleaseThrows | src/MqttClient.hpp:262-271 | a PUBREL repeated before the first is answered makes the second completion throw |
| Topics.Trim | src/CppUtils.hpp:28-34 | erasing the front up to the first and the back behind the last non-blank leaves the trimmed string |
| Topics.TrimCuts | src/CppUtils.hpp:28-34 | trimming cuts blanks at both ends, nothing else, and leaves none there |
| Topics.SplitChannel | src/CppUtils.hpp:96-145 | the loops compute the segments: the non-empty levels and the last one, with a leading slash merged into the first segment, or lost if there is no other |
| Topics.SplitRest | src/CppUtils.hpp:111-133 | from any position: every non-empty piece up to a slash, and the last piece even if it is empty |
| Topics.JoinLevels | src/CppUtils.hpp:96-145 | the levels of every string, joined with slashes, are the string |
| Topics.JoinSplit | src/CppUtils.hpp:96-145 | without "//", joining the segments gives the string back exactly when it is not one leading slash and a single level; then the slash is what is missing |
| Topics.SplitInjective | src/CppUtils.hpp:96-145 | two channels without "//" have the same segments only if they are equal or the pair "x" and "/x", which section 4.7.3 of MQTT 3.1.1 treats as distinct |
| Topics.SplitPrefixIsAncestor | src/CppUtils.hpp:96-145 | for channels that are not one leading slash and a single level, the segments of c are a prefix of those of d exactly when c is d or d starts with c and a slash |
| Topics.SplitPrefixIff | src/CppUtils.hpp:96-145 | the same for all channels: prefix of segments is ancestry once the slash that splitting loses is taken off, with "/" only above itself |
| Topics.IsChannelIff | src/ChTree.hpp:137-164 | the index checks accept exactly the strings of at most 65535 characters without "//" whose trimmed form is non-empty, has '#' only as the whole last level, and has a level '+' where '+' first occurs |
| Topics.IsChannelAgainstRules | src/ChTree.hpp:137-164 | for every string: an accepted one breaks the rules of sections 4.7.1 and 4.7.3 of MQTT 3.1.1 exactly when a blank was cut beside a wildcard, a later '+' has something other than a slash or an end beside it, or it has a zero byte; a rejected one conforms to them exactly when it is otherwise right and has "//" or is blank |
| Topics.IsChannelOfTrimmed | src/ChTree.hpp:137-164 | a string without blanks at its ends is accepted, with no later '+' misused and no zero byte, exactly when it conforms and has no "//" |
| Topics.BlankBehindHash | src/ChTree.hpp:145-156 | "a/# " is accepted, breaks the rule, and is split into "a" and "# " |
| Topics.BlankBehindPlus | src/ChTree.hpp:145-161 | "+ " is accepted and breaks the rule |
| Topics.ZeroUnchecked | src/ChTree.hpp:137-164 | a string with a zero byte that is accepted although section 4.7.3 forbids it |
| Topics.EmptyLevelRejected | src/ChTree.hpp:141-143 | "a//b" conforms and is rejected |
| Topics.SecondPlusUnchecked | src/ChTree.hpp:158-161 | "+/a+" is accepted although it breaks the rule |
| Topics.HashLevels | src/ChTree.hpp:151-156 | '#' only as the whole last level is the same as: every '#' is the last character and stands alone between slashes |
| Topics.PlusLevels | src/ChTree.hpp:158-161 | the level of the first '+' is a '+' alone exactly when the first '+' has slashes or ends beside it |
| Topics.PlusRuleLevels | src/ChTree.hpp:158-161 | '+' only as a whole level is the same as: every '+' has slashes or ends beside it |
| ChannelPaths.FindIsLongest | src/ChTree.hpp:104-130 | the recursive lookup returns the node of the longest present prefix, and nullptr exactly when the first segment is absent |
| ChannelPaths.AddExact | src/ChTree.hpp:205-234 | adding a path to a well-formed tree adds exactly its prefixes, leaves users, messages and children of old nodes in place, and keeps counters, names and structure well formed |
| ChannelPaths.AddIdempotent | src/ChTree.hpp:205-234 | adding twice is adding once |
| ChannelPaths.RemoveExact | src/ChTree.hpp:239-285 | with m the longest present prefix, exactly the paths at or below one cut on m disappear; the cut is where the climb from m first meets the root or a parent with another child or users; every other node is unchanged but the parent of the cut, which loses one child and one count |
| ChannelPaths.RemoveLeavesNoEmpty | src/ChTree.hpp:239-285 | the root survives, and no proper ancestor of m left on the path is without children and users |
| ChannelPaths.RemoveUndoesAddIff | src/ChTree.hpp:205-285 | removing restores the identical tree, order of siblings and counters included, exactly when the add made a node and attached it to the root or to a node with a child or a user |
| ChannelPaths.ReachedIsSound | src/ChTree.hpp:91-285 | every tree that adds and removes can reach is well formed, and each of its leaves is a channel that was added |
| ChannelPaths.AncestorsArePresent | src/ChTree.hpp:104-234 | adding d makes present exactly the ancestors of d besides what was there, up to the slash that splitting loses, and looking up such an ancestor gives its own node |
| ChannelPaths.FindChannelAgreesIff | src/ChTree.hpp:180-201 | as written, the loop returns what the recursion returns exactly for rejected channels |
| ChannelTree.ChTree.constructor | src/ChTree.hpp:81-100 | the new tree is the root alone, under its own path |
| ChannelTree.ChTree.AddLevels | src/ChTree.hpp:212-233 | the loop over the segments changes the heap as adding the path changes the tree of paths; no node is shared or cyclic afterwards |
| ChannelTree.ChTree.AddChannel | src/ChTree.hpp:205-234 | an invalid channel changes nothing; a valid one is added |
| ChannelTree.ChTree.Collect | src/ChTree.hpp:245-266 | the list holds the nodes of the longest present prefix, the root first |
| ChannelTree.ChTree.Prune | src/ChTree.hpp:268-284 | the backward loop removes step by step what detaching at the cut removes at once |
| ChannelTree.ChTree.RemoveChannel | src/ChTree.hpp:239-285 | an invalid channel changes nothing; a valid one is removed, and the tree stays well formed |
| ChannelTree.ChTree.FindNodeFrom | src/ChTree.hpp:104-130 | the node returned is the one at the path that the lookup on paths returns |
| ChannelTree.ChTree.FindNode | src/ChTree.hpp:170-176 | nullptr for invalid channels, otherwise the longest present prefix |
| ChannelTree.ChTree.FindChannel | src/ChTree.hpp:180-201 | corrected: the loop returns the same node as the recursive lookup on every tree and path |
| ChannelTree.Perform | src/ChTree.hpp:81-285 | the heap tree after any sequence of additions and removals is in its one-place-per-node shape and is the tree of paths that the sequence reaches |
| RemainingLength.DecLen | src/mqtt/Protocol.cpp:925-936 | the loop accumulates seven bits a byte, stops at a zero byte and after a byte below 127, and cuts to 32 bits |
| RemainingLength.DecLenOfField | src/mqtt/Protocol.cpp:925-936 | on every complete field that is the number the field stands for |
| RemainingLength.DecLenVarLen | src/mqtt/Protocol.cpp:888-936 | decoding the encoding of section 2.2.3 of MQTT 3.1.1 gives the length back |
| RemainingLength.VarLenIsMinimal | src/mqtt/Protocol.cpp:888-923 | that encoding is the shortest field for its number, and the only one of its width |
| RemainingLength.VarLenWidth | src/mqtt/Protocol.cpp:888-923 | the widths 1 to 4 of the standard's table |
| RemainingLength.EncLen | src/mqtt/Protocol.cpp:888-923 | nullptr above 0x0FFFFFFF, otherwise a zero byte and the encoding in reverse |
| RemainingLength.EncLenAgainstDecLen | src/mqtt/Protocol.cpp:888-936 | dropping the zero and reversing gives a field that decodes to the length; as it stands, only the length 0 is decoded again |
| Wire.HeaderBits | src/mqtt/Protocol.hpp:91-99 | header bytes and headers correspond one to one |
| Wire.FlagBits | src/mqtt/Protocol.hpp:104-113 | flag bytes and connect flags correspond one to one |
| Wire.ReadFixedHeader | src/mqtt/Protocol.cpp:73-77 | header byte, size and position come back from every fixed header in front of any body |
| Wire.ReadEncStr | src/mqtt/Protocol.cpp:93-95 | a length-prefixed string below 65536 bytes comes back from any position |
| ConnectPacket.ConnectSizeIsBody | src/mqtt/Protocol.cpp:51-70 | the computed size is the number of bytes after the fixed header, up to 32 bits |
| ConnectPacket.ConnectRoundTrip | src/mqtt/Protocol.cpp:19-201 | every accepted CONNECT that fits comes back with all fields and flag bits exactly when its strings are below 65536 bytes |
| ConnectPacket.ShortFits | src/mqtt/Protocol.cpp:51-75 | with such strings it always fits |
| ConnectPacket.MqttConnect.Encode | src/mqtt/Protocol.cpp:19-122 | the checks fail in order with -1 to -7; otherwise the buffer grows by exactly the packet |
| ConnectPacket.MqttConnect.Decode | src/mqtt/Protocol.cpp:124-201 | the object takes on the decoded fields, strings appended to what it held |
| PublishPacket.PublishSizeIsBody | src/mqtt/Protocol.cpp:251-252 | the computed size is the number of bytes after the fixed header, up to 32 bits |
| PublishPacket.PublishRoundTrip | src/mqtt/Protocol.cpp:250-319 | every publication that fits comes back, with its identifier exactly if QoS is above 0, exactly when its topic is below 65536 bytes; the payload is bounded by the packet alone |
| PublishPacket.MqttPublish.Encode | src/mqtt/Protocol.cpp:250-278 | the buffer grows by exactly the packet, or -7 |
| PublishPacket.MqttPublish.Decode | src/mqtt/Protocol.cpp:280-319 | the object takes on the decoded message; without QoS it keeps its identifier |
| TopicPackets.TopicsSizeIsBytes | src/mqtt/Protocol.cpp:516-526 | the size added up topic by topic is the number of topic bytes |
| TopicPackets.ListRoundTrip | src/mqtt/Protocol.cpp:513-725 | every non-empty topic list that fits comes back with identifier and order, for SUBSCRIBE with its QoS bytes and for UNSUBSCRIBE, exactly when the topics are below 65536 bytes; the declared size is the body |
| TopicPackets.MqttSubscribe.AddTopic | src/mqtt/Protocol.hpp:345-347 | the topic goes to the end of the list |
| TopicPackets.MqttSubscribe.Encode | src/mqtt/Protocol.cpp:513-552 | -1 without topics and -7 if too long, otherwise exactly the packet |
| TopicPackets.MqttSubscribe.TakeTopics | src/mqtt/Protocol.cpp:579-591 | the loop reads topics until the end of the packet, each one moving on, and appends them in order |
| TopicPackets.MqttSubscribe.Decode | src/mqtt/Protocol.cpp:554-594 | the object takes on identifier and topics |
| TopicPackets.MqttUnsubscribe.DelTopic | src/mqtt/Protocol.hpp:409-411 | the topic goes to the end of the list |
| TopicPackets.MqttUnsubscribe.Encode | src/mqtt/Protocol.cpp:653-686 | as for SUBSCRIBE, without QoS bytes |
| TopicPackets.MqttUnsubscribe.TakeTopics | src/mqtt/Protocol.cpp:712-722 | as for SUBSCRIBE, without QoS bytes |
| TopicPackets.MqttUnsubscribe.Decode | src/mqtt/Protocol.cpp:688-725 | the object takes on identifier and topics |
| AckPackets.SubackRoundTrip | src/mqtt/Protocol.cpp:600-647 | every SUBACK that fits comes back; without results this is the packet with an identifier alone |
| AckPackets.MqttSuback.Encode | src/mqtt/Protocol.cpp:600-616 | the buffer grows by exactly the packet, with the size that the source does not set |
| AckPackets.MqttSuback.Decode | src/mqtt/Protocol.cpp:618-647 | the object takes on identifier and results |
| AckPackets.ConnackRoundTrip | src/mqtt/Protocol.cpp:207-244 | every CONNACK comes back |
| AckPackets.MqttConnectAck.Encode | src/mqtt/Protocol.cpp:207-220 | the buffer grows by exactly the packet with the size the object holds, or -7 |
| AckPackets.MqttConnectAck.Decode | src/mqtt/Protocol.cpp:222-244 | corrected: the object takes on session flag and return code |
| AsWrittenPackets.SwappedTwiceIff | src/mqtt/Protocol.cpp:80-82 | as written, a length is sent as the standard wants it exactly when its two bytes are equal |
| AsWrittenPackets.EmitFailsIff | src/mqtt/Protocol.cpp:71-75 | as written, encoding fails exactly for sizes whose low byte is 16 or more |
| AsWrittenPackets.EmitReadsAsZero | src/mqtt/Protocol.cpp:71-77 | what it does encode declares size 0 |
| AsWrittenPackets.PublishIdIsLost | src/mqtt/Protocol.cpp:263-271 | as written, all identifiers of one sign are sent alike, in as many bytes as intended |
| AsWrittenPackets.DeclaredSizeFallsShort | src/mqtt/Protocol.cpp:519-526 | the declared size is short by one byte per topic, or two for UNSUBSCRIBE |
| AsWrittenPackets.PublishFlagsSwapped | src/mqtt/Protocol.hpp:222-229 | the constructors' header has the intended bits exactly when dup and retain agree |
| AsWrittenPackets.SizeIsZero | src/mqtt/Protocol.cpp:128-140 | as written, every decoded size is 0 |
| AsWrittenPackets.StringsAreNeverDecoded | src/mqtt/Protocol.cpp:124-201 | as written, no buffer is decoded as CONNECT or PUBLISH without leaving its range |
| AsWrittenPackets.IdentifierIsLost | src/mqtt/Protocol.cpp:341-366 | as written, identifier packets are decoded exactly when the length field is one byte, and to identifier 0 |
| AsWrittenPackets.TopicsAreLost | src/mqtt/Protocol.cpp:554-594 | then a topic list is always empty |
| AsWrittenPackets.ResultsRunAway | src/mqtt/Protocol.cpp:618-647 | then SUBACK takes bytes 4 to 65533 of the buffer for its results |
| AsWrittenPackets.SubackComesBackIff | src/mqtt/Protocol.cpp:600-647 | as written, with whatever size the object holds: a SUBACK comes back exactly when the low byte of that size is below 16, the identifier is 0, and the results are 65529 bytes that repeat the end of length field and identifier over and over |
| AsWrittenPackets.ZerosComeBack | src/mqtt/Protocol.cpp:600-647 | one that does: size 0 and 65529 zeros |
| AsWrittenPackets.AsWrittenNothingComesBack | src/mqtt/Protocol.cpp:19-725 | as written, no CONNECT, no PUBLISH and no non-empty topic list survives encoding and decoding |
| AsWrittenPackets.AckComesBackIff | src/mqtt/Protocol.cpp:325-366 | and of the acknowledgements exactly the one with identifier 0 does |
| AsWrittenPackets.ConnackNeverComesBack | src/mqtt/Protocol.cpp:207-244 | a standard CONNACK is read beyond its end, and one as written comes back with another return code |
| Framing.FramesConserve | src/MqttSession.hpp:122-283 | the frames of a stream and the rest are the stream: no byte is lost or duplicated, and each frame is one plus the width plus the length |
| Framing.FramesOfFlat | src/MqttSession.hpp:122-283 | a stream made of frames consists of these frames |
| SessionReader.MqttSession.LengthEnding | src/MqttSession.hpp:100-109 | -1 for no bytes, 0 if all are continuation bytes, otherwise the place of the first that is not, from 1 |
| SessionReader.MqttSession.DoReadLen | src/MqttSession.hpp:203-229 | for every split into reads: the number of the whole field, its width and the bytes consumed, which lie in the buffer; with four continuation bytes no report; an error at the end of the stream |
| SessionReader.MqttSession.ReadRemainder | src/MqttSession.hpp:239-283 | corrected: exactly the bytes of the frame, and the rest stays unread |
| SessionReader.MqttSession.ReadMessage | src/MqttSession.hpp:122-194 | corrected: the next frame byte for byte, however the bytes arrive, and exactly the rest stays unread; without one, nothing ever happens behind four continuation bytes, and the session is closed at the end of the stream |
| SessionReader.MqttSession.ReadAll | src/MqttSession.hpp:122-283 | reading on yields the frames of the whole stream, and ends as its rest demands |
| SessionReader.ReadFrames | src/MqttSession.hpp:122-283 | every list of frames cut into any chunks is read as exactly that list |
| AsWrittenReader.FirstFrameIff | src/MqttSession.hpp:142-188 | as written, the first frame is handed on unchanged, with nothing else taken, exactly when the first read ends with the length field, or reads the header alone and the next reads end with the field and its last byte is 0 |
| AsWrittenReader.StreamIff | src/MqttSession.hpp:122-283 | as written, a stream of frames is handed on frame by frame, with nothing lost, exactly when at every frame the reads end with the length field in one of those two ways |
| AsWrittenReader.CallbackIsAfterLength | src/MqttSession.hpp:178-187 | what is handed on after the length came separately is what the callback makes of what `do_read_len` reports |
| MessageStream.EncodedIs | src/mqtt/Protocol.cpp:19-883 | corrected: what an encoder accepts is sent as a fixed header that declares the body's length, and the body |
| MessageStream.MessageComesBack | src/MqttSession.hpp:335-410 | every accepted message is one frame, and the decoder that its header selects gives it back |
| MessageStream.Receive | src/MqttSession.hpp:122-140 | the session hands on the messages of the frames of its stream, in order, up to the first that cannot be parsed |
| MessageStream.Transfer | src/MqttSession.hpp:122-410 | every list of accepted messages, encoded, cut into any chunks and received, arrives as that list |
| KeepAlive.Session.constructor | src/MqttSession.hpp:46-51 | the activity is stamped, and the timer holds whatever a new timer holds: a time, or none |
| KeepAlive.Session.OnLogin | src/MqttSession.hpp:65-68 | login stamps the activity and sets the timer a minute later than what it held, which leaves it without a time if it had none |
| KeepAlive.Session.OnTimer | src/MqttSession.hpp:415-440 | a firing closes the session if the idle time is above a minute, and otherwise sets the timer later by the idle time |
| KeepAlive.IdleBoundIff | src/MqttSession.hpp:65-72 | an open session idle for at most 120 seconds, and none closed but above 60: this holds in every run exactly if the timer held none or a time no later than a minute after the login |
| KeepAlive.NeverSet | src/MqttSession.hpp:47-47 | with a timer that was never given a time, an open session is idle for at most 60 seconds and is closed at exactly 61 |
| KeepAlive.BusyStaysOpen | src/MqttSession.hpp:415-440 | with no gap above 60 seconds between activities it is never closed, whatever the timer held |
| KeepAlive.FiringDoubles | src/MqttSession.hpp:415-440 | once idle, every firing doubles the idle time |
| KeepAlive.FiredOnTime | src/MqttSession.hpp:430-431 | a firing on time at idle time d, not above 60, sets the timer to twice d after the last activity |
| KeepAlive.ClosesWithinSix | src/MqttSession.hpp:415-440 | from a firing at idle time 1 to 60 the session is closed within six more, at idle time above 60 and at most 120, and by none before |
| KeepAlive.ZeroIdleSpins | src/MqttSession.hpp:430-431 | a firing in the second of the last activity sets the timer to the same second again |

## Left out

- Qos2Client.MqttClient.Complete: stands for the completion of a write, which the source cannot reach because `MqttClient::do_write` (src/MqttClient.hpp:339-341) is empty; a packet reaches the wire and its callback runs in one step.
- Qos2Guarantees.EveryRunIsExactlyOnce: runs are without reconnect, retransmission or failed writes, none of which the source does anything about; arbitrary repeats and failures are in `ReceiveWindow.HeldIsFirstSinceRelease`. Publications are started by the environment, since nothing inserts into `_msg_squeue`.
- Qos2Guarantees.AsWrittenThrowsIff: for publications in one direction, where the condition is simplest; `Qos2History.AsWrittenRunThrowsIff` covers both.
- Qos2Client.MqttClient.Deliver: only the cases that touch the windows; `onAuth`, `onSubscribe`, `onUnSubscribe` are stubs, QoS 1 history is a TODO, and the other cases close the session or answer a ping.
- ChannelPaths.FindChannelAgreesIff: the code as written is followed on the tree of paths, not in the heap; reading the end iterator is its own outcome.
- ChannelTree.ChTree.AddLevels: `node_size` and `user_size` are unbounded integers instead of 32-bit ones, a node's name is fixed when it is made, and no operation registers users or messages, as in the source.
- RemainingLength.DecLen: shifts that C++ leaves undefined are multiplications modulo 2 to the 32: those by more than 31 bits, for a byte behind the fifth, and that by 28 of a fifth byte whose low seven bits are 16 or more, which before C++20 overflows. No caller in the source gets to either without having read outside its buffer first.
- AsWrittenPackets.AsWrittenNothingComesBack: encoders and decoders as written are functions on values, on a little-endian host; a range that ends before it starts or beyond the buffer is undefined behaviour and ends the decoding.
- AsWrittenReader.FirstFrameIff: the reads as written are functions of the stream and of how many bytes the reads deliver, not methods on buffers; `AsWrittenReader.StreamIff` takes whole streams of frames.
- SessionReader.MqttSession.ReadMessage: the splitting of reads by `SOCKET_RECV_BUFFER_SIZE` (src/MqttSession.hpp:245-250), whose result the source does not use, is not modelled; every stream ends.
- PublishPacket.MqttPublish.Decode: fields that C++ leaves uninitialised, such as the identifier of a new message, are parameters.
- MessageStream.Transfer: the session as corrected; nothing of it is claimed of encoders and decoders as written.
- KeepAlive.Session.OnTimer: the timer fires on time, or within the second and repeatedly when it is overdue or has no time, and counts whole seconds. What a new timer holds is decided by its library, which is not part of this model. Cancelled waits do nothing, as in the source.
- Topics.IsChannelAgainstRules: the characters of a string are the source's bytes, also where 65535 of them are counted; whether they are well-formed UTF-8 (section 1.5.3 of MQTT 3.1.1) is not looked at, as in the source.
- Packets with an identifier alone and empty ones have no classes of their own; they share one shape.
- Outgoing chunked writes of the session (src/MqttSession.hpp:305-331), sockets, threads, strands and the black list.
- `CppUtils::split`, `Channel`, `Global`, `Singleton`, JSON printing of nodes, exception texts and the two `main` files.
