# Verified model of mbed-mqtt

This project models the parts of mbed-mqtt that carry state or structure: the 2-3 tree, the tables and
the sleep queue of the MQTT-SN gateway, the MQTT client's session engine, the packet codec with its
blocking and resumable readers, and the two topic-filter matchers. Integers are unbounded unless a
width matters; then it is written out (bytes, 16-bit counters, bit fields). Network, timers and
uninitialised memory are scripts of arbitrary values, so every statement about a run holds for all of
them. `dafny verify dfyconfig.toml` checks everything.

- `Tree23Model.dfy`, `Tree23.dfy`: the 2-3 tree as a value, with the reference (a sorted association
  list), and its heap form, node by node updated in place. Keys are ordered by any total `compare`.
- `Wire.dfy`, `Publish.dfy`, `Subscriptions.dfy`, `Connect.dfy`: the wire format. Serializers write
  into an array through a moving pointer; parsers read memory through a cursor. `WireImage.dfy` says in
  numbers which bytes those are.
- `PacketReader.dfy`: `MQTTPacket_read` and `MQTTPacket_readnb`.
- `Network.dfy`, `Qos2Receiver.dfy`, `SessionLog.dfy`, `SessionRuns.dfy`, `ClientSession.dfy`,
  `EndToEnd.dfy`: the client. A ghost log says what happened: which bytes were taken off the network
  and which were put on it, in order, and when the session changed. The client's fields are a replay
  of that log, the laws are laws of logs, and each call of the API is described by what it adds.
  `Delivery.dfy` tells from the bytes read which handlers are called and what is answered.
- `TopicLevels.dfy`, `ClientMatcher.dfy`, `GatewayMatcher.dfy`: topic filters.
- `Basics.dfy`: optional values and sequences with one element taken out.
- `LinkedLists.dfy`, `IdCycle.dfy`, `Topics.dfy`, `MessageIdTable.dfy`, `WaitedTopics.dfy`,
  `SleepBuffer.dfy`: the gateway's lists, counters and tables.

Where the code does not do what one would expect, the model follows the code and the exact extent is
proved: the two readers differ exactly on fitting packets with a length field of more than four bytes;
the client's matcher departs from section 4.7.1 of MQTT Version 3.1.1 on a filter and a name exactly
when the standard matches but a wildcard meets an empty level, or when the filter has one empty level
more than a name it otherwise matches; the gateway's matcher misses exactly the names ending at the
`+` of `+/#`; `TopicIdMap::erase` keeps its counter right exactly for a present id; a message id is captured by an
older entry exactly after whole cycles of 65534 allocations; the length predictor is one too large at
four sizes and too small exactly beyond the protocol's limit; a PUBLISH of QoS 1 or 2 that ends before
its packet identifier is accepted with a negative payload length; CONNECT credentials are refused
exactly when the last one is empty or a password stands alone; with a publish in flight `connect`
succeeds or fails with that publish, even when the CONNACK refuses or never comes; a refused
subscription installs its handler exactly where `char` is signed; the protocol
name of a CONNECT is compared only as far as the shorter of the two names goes.

## Model

| member | source | states |
|---|---|---|
| Tree23Model.AddCorrect | paho_mqtt-sn_embedded_c/MQTTSNGateway/src/MQTTSNGWProcess.h:379-439 | inserting into any balanced, sorted tree gives a tree of the same height or an insert-active node above two such trees, and its in-order contents are the old ones with the entry put in place of any equal key |
| Tree23Model.AddRootCorrect | paho_mqtt-sn_embedded_c/MQTTSNGateway/src/MQTTSNGWProcess.h:373-377 | the public add keeps the tree perfectly balanced and sorted; height grows by one exactly when an insert-active node reaches the root |
| Tree23Model.AddLeft2Keeps | paho_mqtt-sn_embedded_c/MQTTSNGateway/src/MQTTSNGWProcess.h:632-640 | the helper keeps entries and order and absorbs the active child into a 3-node |
| Tree23Model.AddRight2Keeps | paho_mqtt-sn_embedded_c/MQTTSNGateway/src/MQTTSNGWProcess.h:654-662 | the helper keeps entries and order and absorbs the active child into a 3-node |
| Tree23Model.AddLeft3Keeps | paho_mqtt-sn_embedded_c/MQTTSNGateway/src/MQTTSNGWProcess.h:642-652 | the helper keeps entries and order, and passes an active node on exactly when its child was active |
| Tree23Model.AddMidle3Keeps | paho_mqtt-sn_embedded_c/MQTTSNGateway/src/MQTTSNGWProcess.h:675-685 | the helper keeps entries and order, and passes an active node on exactly when its child was active |
| Tree23Model.AddRight3Keeps | paho_mqtt-sn_embedded_c/MQTTSNGateway/src/MQTTSNGWProcess.h:664-673 | the helper keeps entries and order, and passes an active node on exactly when its child was active |
| Tree23Model.RemoveLeft2Keeps | paho_mqtt-sn_embedded_c/MQTTSNGateway/src/MQTTSNGWProcess.h:723-747 | entries and order stay; the result has the same height or is a hole exactly one level shorter |
| Tree23Model.RemoveRight2Keeps | paho_mqtt-sn_embedded_c/MQTTSNGateway/src/MQTTSNGWProcess.h:749-773 | entries and order stay; the result has the same height or is a hole exactly one level shorter |
| Tree23Model.RemoveLeft3Keeps | paho_mqtt-sn_embedded_c/MQTTSNGateway/src/MQTTSNGWProcess.h:775-798 | entries and order stay; the hole is always filled and the height kept |
| Tree23Model.RemoveMidle3Keeps | paho_mqtt-sn_embedded_c/MQTTSNGateway/src/MQTTSNGWProcess.h:800-823 | entries and order stay; the hole is always filled and the height kept |
| Tree23Model.RemoveRight3Keeps | paho_mqtt-sn_embedded_c/MQTTSNGateway/src/MQTTSNGWProcess.h:825-848 | entries and order stay; the hole is always filled and the height kept |
| Tree23Model.RemoveMaxCorrect | paho_mqtt-sn_embedded_c/MQTTSNGateway/src/MQTTSNGWProcess.h:688-720 | removeMax takes out exactly the last entry in order and loses at most one level |
| Tree23Model.RemoveShrinks | paho_mqtt-sn_embedded_c/MQTTSNGateway/src/MQTTSNGWProcess.h:450-525 | removing any key, present or not, from any balanced tree gives a tree of the same height or a hole one level shorter |
| Tree23Model.RemoveCorrect | paho_mqtt-sn_embedded_c/MQTTSNGateway/src/MQTTSNGWProcess.h:450-525 | the in-order contents after a removal are the old ones without the entry of the equal key |
| Tree23Model.RemoveRootCorrect | paho_mqtt-sn_embedded_c/MQTTSNGateway/src/MQTTSNGWProcess.h:441-448 | the public remove leaves a balanced, sorted tree whose contents are the old map minus the key |
| Tree23Model.PutMeaning | paho_mqtt-sn_embedded_c/MQTTSNGateway/src/MQTTSNGWProcess.h:396-400 | the reference insertion seen through lookups: the equal key has the new value, every other key its old one |
| Tree23Model.DeleteMeaning | paho_mqtt-sn_embedded_c/MQTTSNGateway/src/MQTTSNGWProcess.h:466-476 | the reference deletion seen through lookups: the equal key is gone, every other key has its old value |
| Tree23Model.HeightIsLogarithmic | paho_mqtt-sn_embedded_c/MQTTSNGateway/src/MQTTSNGWProcess.h:527-629 | a balanced tree of height h holds at least 2^h - 1 entries |
| Tree23Model.SearchIsLogarithmic | paho_mqtt-sn_embedded_c/MQTTSNGateway/src/MQTTSNGWProcess.h:527-629 | the search path of any key in a balanced tree of n entries has at most log2(n + 1) nodes |
| Tree23Model.LookupStep | paho_mqtt-sn_embedded_c/MQTTSNGateway/src/MQTTSNGWProcess.h:530-573 | one step of the search, for every outcome of the comparisons, keeps the answer |
| Tree23Heap.Tree23.constructor | paho_mqtt-sn_embedded_c/MQTTSNGateway/src/MQTTSNGWProcess.h:360-363 | a new tree is empty and valid |
| Tree23Heap.Tree23.Add | paho_mqtt-sn_embedded_c/MQTTSNGateway/src/MQTTSNGWProcess.h:373-377 | on heap nodes updated in place: the tree is the model's and its contents the reference insertion, it stays valid, height grows by at most one |
| Tree23Heap.Tree23.Remove | paho_mqtt-sn_embedded_c/MQTTSNGateway/src/MQTTSNGWProcess.h:441-448 | on heap nodes updated in place: the tree is the model's and its contents the reference deletion, it stays valid, height shrinks by at most one |
| Tree23Heap.Tree23.GetVal | paho_mqtt-sn_embedded_c/MQTTSNGateway/src/MQTTSNGWProcess.h:578-629 | returns the value the reference lookup gives, having visited exactly the nodes of the search path, at most log2(n + 1) of an n-entry tree |
| Tree23Heap.Tree23.Find | paho_mqtt-sn_embedded_c/MQTTSNGateway/src/MQTTSNGWProcess.h:527-575 | true exactly when the reference lookup finds the key, having visited exactly the nodes of the search path, at most log2(n + 1) of an n-entry tree |
| Tree23Heap.AddNode | paho_mqtt-sn_embedded_c/MQTTSNGateway/src/MQTTSNGWProcess.h:379-439 | the recursive insertion on heap nodes yields the tree of the functional model, with only fresh or old nodes |
| Tree23Heap.RemoveNode | paho_mqtt-sn_embedded_c/MQTTSNGateway/src/MQTTSNGWProcess.h:450-525 | the recursive removal on heap nodes yields the tree of the functional model |
| Tree23Heap.RemoveMaxNode | paho_mqtt-sn_embedded_c/MQTTSNGateway/src/MQTTSNGWProcess.h:688-720 | removeMax on heap nodes yields the model's tree and largest entry |
| Tree23Heap.AddLeft3 | paho_mqtt-sn_embedded_c/MQTTSNGateway/src/MQTTSNGWProcess.h:642-652 | refines the model helper, the active child being settled in place |
| Tree23Heap.AddRight3 | paho_mqtt-sn_embedded_c/MQTTSNGateway/src/MQTTSNGWProcess.h:664-673 | refines the model helper, the active child being settled in place |
| Tree23Heap.AddMidle3 | paho_mqtt-sn_embedded_c/MQTTSNGateway/src/MQTTSNGWProcess.h:675-685 | refines the model helper, the active middle node being reused in place |
| Tree23Heap.AddLeft2 | paho_mqtt-sn_embedded_c/MQTTSNGateway/src/MQTTSNGWProcess.h:632-640 | refines the model helper with a new 3-node |
| Tree23Heap.AddRight2 | paho_mqtt-sn_embedded_c/MQTTSNGateway/src/MQTTSNGWProcess.h:654-662 | refines the model helper with a new 3-node |
| Tree23Heap.RemoveLeft2 | paho_mqtt-sn_embedded_c/MQTTSNGateway/src/MQTTSNGWProcess.h:723-747 | refines the model helper; the sibling that fills the hole exists |
| Tree23Heap.RemoveRight2 | paho_mqtt-sn_embedded_c/MQTTSNGateway/src/MQTTSNGWProcess.h:749-773 | refines the model helper; the sibling that fills the hole exists |
| Tree23Heap.RemoveLeft3 | paho_mqtt-sn_embedded_c/MQTTSNGateway/src/MQTTSNGWProcess.h:775-798 | refines the model helper; the sibling that fills the hole exists |
| Tree23Heap.RemoveMidle3 | paho_mqtt-sn_embedded_c/MQTTSNGateway/src/MQTTSNGWProcess.h:800-823 | refines the model helper; the sibling that fills the hole exists |
| Tree23Heap.RemoveRight3 | paho_mqtt-sn_embedded_c/MQTTSNGateway/src/MQTTSNGWProcess.h:825-848 | refines the model helper; the sibling that fills the hole exists |
| Tree23Heap.ApplyLookup | paho_mqtt-sn_embedded_c/MQTTSNGateway/src/MQTTSNGWProcess.h:373-525 | after any history of adds and removes the contents answer every key with the last operation on it |
| Tree23Heap.RunThenGet | paho_mqtt-sn_embedded_c/MQTTSNGateway/src/MQTTSNGWProcess.h:373-629 | any sequence of adds and removes on an empty heap tree, then getVal and find: both agree with the last operation on the key, and visit exactly the search path of the tree that the operations grow, at most log2(n + 1) nodes |
| Wire.Encode | paho_mqtt_embedded_c/MQTTPacket/src/MQTTPacket.c:29-45 | the do-while loop writes exactly the encoding of the length at the given place and nothing else |
| Wire.DecodeBuf | paho_mqtt_embedded_c/MQTTPacket/src/MQTTPacket.c:54-81 | the do-while loop returns the count and value that the field denotes; a field of more than four bytes counts for five with the value of its first four |
| Wire.RemainingLengthRoundTrip | paho_mqtt_embedded_c/MQTTPacket/src/MQTTPacket.c:29-81 | for every n up to 268435455 decoding inverts encoding, in one to four bytes, whatever follows |
| Wire.EncodeLenSize | paho_mqtt_embedded_c/MQTTPacket/src/MQTTPacket.c:29-45 | the exact size classes of the field |
| Wire.PacketLenExact | paho_mqtt_embedded_c/MQTTPacket/src/MQTTPacket.c:84-98 | the predictor is exact but for one too many at n = 127, 16383, 2097150 and 2097151, and falls short exactly beyond 268435455 |
| Wire.U16RoundTrip | paho_mqtt_embedded_c/MQTTPacket/src/MQTTPacket.c:124-169 | a two-byte integer reads back as its low 16 bits; WireImage fixes which byte comes first |
| Wire.WriteString | paho_mqtt_embedded_c/MQTTPacket/src/MQTTPacket.c:192-204 | writes the length prefix and the bytes of the string, and nothing else |
| Wire.StrLenExact | paho_mqtt_embedded_c/MQTTPacket/src/MQTTPacket.c:192-249 | the counted length is the written length for a string in one form, and for one in both forms exactly when the two have equal length |
| Wire.ReadString | paho_mqtt_embedded_c/MQTTPacket/src/MQTTPacket.c:213-232 | succeeds exactly when prefix and string lie before the end, and leaves the cursor after them |
| Wire.TakePrefixed | paho_mqtt_embedded_c/MQTTPacket/src/MQTTPacket.c:177-232 | a prefixed string of at most 65535 bytes is read back, with what follows untouched |
| Wire.HeaderRoundTrip | paho_mqtt_embedded_c/MQTTPacket/src/MQTTPacket.h:53-73 | type, dup, QoS and retain survive the header byte within their bit widths |
| Wire.PacketFramed | paho_mqtt_embedded_c/MQTTPacket/src/MQTTPacket.c:101-117 | a packet in shortest form is delimited exactly by its own length field, whatever follows |
| Publish.SerializePublish | paho_mqtt_embedded_c/MQTTPacket/src/MQTTSerializePublish.c:31-91 | for every topic whose counted length is the one written: refuses exactly the packets the predictor finds too long, leaving the buffer alone; otherwise the buffer starts with the packet and the result is its length, within buflen |
| Publish.SerializeAck | paho_mqtt_embedded_c/MQTTPacket/src/MQTTSerializePublish.c:104-127 | writes the four bytes of the acknowledgement, or refuses a shorter buffer |
| Publish.DeserializePublish | paho_mqtt_embedded_c/MQTTPacket/src/MQTTDeserializePublish.c:36-71 | the cursor code computes the parse of header and body for every packet that lies in memory, malformed ones and those with a length field of more than four bytes included |
| Publish.NegativePayload | paho_mqtt_embedded_c/MQTTPacket/src/MQTTDeserializePublish.c:56-67 | the reported payload length is negative exactly when a QoS 1 or 2 packet has no room for its packet identifier |
| Publish.NegativePayloadHappens | paho_mqtt_embedded_c/MQTTPacket/src/MQTTDeserializePublish.c:56-67 | a concrete packet that is accepted with payload length -2 |
| Publish.PublishRoundTrip | paho_mqtt_embedded_c/MQTTPacket/src/MQTTDeserializePublish.c:36-71 | a serialized PUBLISH parses back to the same topic, payload, QoS, dup, retain and identifier exactly when the topic is shorter than 65536 bytes |
| Publish.DeserializeAck | paho_mqtt_embedded_c/MQTTPacket/src/MQTTDeserializePublish.c:84-108 | identifier and result code of every acknowledgement that lies in memory, the short body's result code included |
| Publish.AckRoundTrip | paho_mqtt_embedded_c/MQTTPacket/src/MQTTSerializePublish.c:104-127 | type, dup and identifier of an acknowledgement are read back |
| Subscriptions.RequestLength | paho_mqtt_embedded_c/MQTTPacket/src/MQTTSubscribeClient.c:28-36 | the summing loop adds up the counted lengths, for lists of any length, which is the body size exactly where each counted length is the one written |
| Subscriptions.SerializeRequest | paho_mqtt_embedded_c/MQTTPacket/src/MQTTSubscribeClient.c:50-86 | the buffer starts with the SUBSCRIBE or UNSUBSCRIBE packet, or is left alone when too short |
| Subscriptions.WriteEntries | paho_mqtt_embedded_c/MQTTPacket/src/MQTTUnsubscribeClient.c:75-78 | the loop writes every filter (and QoS) in order and nothing else |
| Subscriptions.ReadEntries | paho_mqtt_embedded_c/MQTTPacket/src/MQTTSubscribeServer.c:55-64 | the loop returns the entries the body denotes and whether it ended cleanly, with char signed or not |
| Subscriptions.DeserializeRequest | paho_mqtt_embedded_c/MQTTPacket/src/MQTTUnsubscribeServer.c:34-66 | the whole parser, its result code for truncated packets included |
| Subscriptions.RequestRoundTrip | paho_mqtt_embedded_c/MQTTPacket/src/MQTTSubscribeServer.c:35-70 | parsing a serialized list returns the identifier and the same list in order, for exactly the lists whose filters are shorter than 65536 bytes and whose QoS values fit a char, signed or not |
| Connect.ConnectLengthExact | paho_mqtt_embedded_c/MQTTPacket/src/MQTTConnectClient.c:27-48 | connectLength is the size of the body for every option set of version 3 or 4 whose counted string lengths are those written |
| Connect.SerializeConnect | paho_mqtt_embedded_c/MQTTPacket/src/MQTTConnectClient.c:58-121 | the bytes written are 1 + length-field size + connectLength and are the CONNECT packet; a short buffer is left alone |
| Connect.DeserializeConnect | paho_mqtt_embedded_c/MQTTPacket/src/MQTTConnectServer.c:51-108 | the cursor code computes the parse of every packet, refusals included |
| Connect.FlagsRoundTrip | paho_mqtt_embedded_c/MQTTPacket/src/MQTTConnectClient.c:90-102 | every flag and the will QoS are read back from the flag byte |
| Connect.ConnectRoundTrip | paho_mqtt_embedded_c/MQTTPacket/src/MQTTConnectServer.c:51-108 | parsing inverts serializing on every field the parser sets, exactly when every string sent is shorter than 65536 bytes, a password comes with a user name and the last credential is not empty; with such strings and other credentials it refuses |
| WireImage.LenImage | paho_mqtt_embedded_c/MQTTPacket/src/MQTTPacket.c:29-45 | the length field in numbers: one to four bytes of seven bits, least significant first, marked by 128 while more follow |
| WireImage.LenParsed | paho_mqtt_embedded_c/MQTTPacket/src/MQTTPacket.c:54-81 | the value and the count that any four bytes give, shortest form or not; four marked bytes have the value of all four and count for five |
| WireImage.PublishImage | paho_mqtt_embedded_c/MQTTPacket/src/MQTTSerializePublish.c:31-91 | every serialized PUBLISH, byte for byte: 48 + 8 dup + 2 QoS + retain, the length field, the topic after its length with the high byte first, for QoS 1 and 2 the identifier with the high byte first, the payload |
| WireImage.PublishParsed | paho_mqtt_embedded_c/MQTTPacket/src/MQTTDeserializePublish.c:36-71 | those bytes, whatever follows, parse to exactly that topic, payload, QoS, dup, retain and identifier |
| WireImage.AckImage | paho_mqtt_embedded_c/MQTTPacket/src/MQTTSerializePublish.c:104-127 | PUBACK, PUBREC, PUBREL, PUBCOMP and UNSUBACK are 64, 80, 98, 112 and 176, then 2 and the identifier with the high byte first |
| WireImage.AckParsed | paho_mqtt_embedded_c/MQTTPacket/src/MQTTDeserializePublish.c:84-108 | four such bytes give the identifier 256 hi + lo; two bytes are accepted without one |
| WireImage.RequestImage | paho_mqtt_embedded_c/MQTTPacket/src/MQTTUnsubscribeClient.c:49-82 | every SUBSCRIBE starts with 130 and every UNSUBSCRIBE with 162 (plus 8 dup); then length field, identifier, and each filter after its length, with its QoS |
| WireImage.RequestParsed | paho_mqtt_embedded_c/MQTTPacket/src/MQTTSubscribeServer.c:35-70 | those bytes parse back to the identifier and the list |
| WireImage.ConnectImage | paho_mqtt_embedded_c/MQTTPacket/src/MQTTConnectClient.c:58-121 | every CONNECT, byte for byte: 16, the length field, 0 4 M Q T T 4 (or 0 6 M Q I s d p 3), the flag byte in numbers, keep-alive, and the strings supplied in their order |
| WireImage.ConnectParsed | paho_mqtt_embedded_c/MQTTPacket/src/MQTTConnectServer.c:51-108 | those bytes parse back to the options, or are refused, exactly by the rule for credentials |
| WireImage.NameRule | paho_mqtt_embedded_c/MQTTPacket/src/MQTTConnectServer.c:30-85 | the protocol name is compared only as far as the shorter name goes: every beginning and every continuation of the right one passes, the empty one with either level |
| SessionLog.PingImage | paho_mqtt_embedded_c/MQTTPacket/src/MQTTConnectClient.c:211-214 | PINGREQ is 192 0 |
| SessionRuns.DisconnectImage | paho_mqtt_embedded_c/MQTTPacket/src/MQTTConnectClient.c:199-202 | DISCONNECT is 224 0 |
| PacketReader.ReadBlocking | paho_mqtt_embedded_c/MQTTPacket/src/MQTTPacket.c:288-314 | type, buffer front and bytes consumed of the blocking reader for every stream, those that end inside the length field or the body included |
| PacketReader.DecodeStream | paho_mqtt_embedded_c/MQTTPacket/src/MQTTPacket.c:54-81 | the decode loop on a stream: value and bytes taken |
| PacketReader.Transport.DecodeNb | paho_mqtt_embedded_c/MQTTPacket/src/MQTTPacket.c:322-350 | the resumable decoder keeps its place over any interruption and fails exactly at a field of more than four bytes |
| PacketReader.Transport.ReadNb | paho_mqtt_embedded_c/MQTTPacket/src/MQTTPacket.c:360-409 | on every stream one call delivers the packet or leaves a state from which the next call goes on, having used up part of the schedule or all of the stream |
| PacketReader.ReadRepeatedly | paho_mqtt_embedded_c/MQTTPacket/src/MQTTPacket.c:360-409 | calling again until the result is not 0 terminates and delivers the packet for every schedule without errors |
| PacketReader.SamePacket | paho_mqtt_embedded_c/MQTTPacket/src/MQTTPacket.c:288-409 | for every stream, schedule of call-again and partial reads, and buffer of at least 5 bytes the two readers give the same type, contents and consumption when the length field has at most four bytes |
| PacketReader.ReadersAgree | paho_mqtt_embedded_c/MQTTPacket/src/MQTTPacket.c:288-409 | the two readers agree on type and consumption exactly when the field has at most four bytes or the packet does not fit |
| PacketReader.ReadersDiffer | paho_mqtt_embedded_c/MQTTPacket/src/MQTTPacket.c:301-302 | a concrete stream with a five-byte field on which they differ |
| PacketReader.ReadsPacket | paho_mqtt_embedded_c/MQTTPacket/src/MQTTPacket.c:288-314 | a packet in shortest form is delivered unchanged |
| Network.Socket.Read | src/MQTTNetworkUtil.h:44-62 | all bytes asked for, in order, or a result different from their number; on a faultless socket always the former |
| Network.Socket.WriteSome | src/MQTTNetworkUtil.h:73-83 | the bytes reported as sent are a prefix of the data and are on the wire; of the failures would-block becomes 0, nothing sent becomes -1 and others stay; a socket that always takes something reports at least one |
| ClientSession.Client.SendPacket | paho_mqtt_embedded_c/MQTTClient/src/MQTTClient.h:381-410 | whatever the partial writes and timer answers, the wire gets a prefix of the packet, and success means all of it; all of it is sent whenever every write takes something and the timer allows as many writes as there are bytes, the last one excepted |
| ClientSession.Client.DecodePacket | paho_mqtt_embedded_c/MQTTClient/src/MQTTClient.h:414-439 | the bytes taken form a length field, whole or cut short, whose value is used and never exceeds the limit; on a faultless network it is the field of the stream |
| ClientSession.Client.ReadPacket | paho_mqtt_embedded_c/MQTTClient/src/MQTTClient.h:449-497 | a positive result means that the bytes taken off the network are a header, a length field and the body it announces, and the buffer starts with that packet, its length in the shortest form; on a faultless network it is the packet at the front of the stream, and nothing more is consumed; nothing taken means result 0 |
| ClientSession.Client.CleanSession | paho_mqtt_embedded_c/MQTTClient/src/MQTTClient.h:300-315 | every place of the QoS 2 table is 0 and no handler and no publish is left, and the log says so |
| ClientSession.Client.CloseSession | paho_mqtt_embedded_c/MQTTClient/src/MQTTClient.h:319-325 | cleans exactly when the session is a clean one, table, handlers and slot then being empty, and otherwise changes nothing of it |
| ClientSession.Client.constructor | paho_mqtt_embedded_c/MQTTClient/src/MQTTClient.h:329-334 | a new client has an empty log, and its fields and the network are what that log says |
| ClientSession.Client.IsQoS2msgidFree | paho_mqtt_embedded_c/MQTTClient/src/MQTTClient.h:339-347 | true exactly when the identifier is not in the table |
| ClientSession.Client.UseQoS2msgid | paho_mqtt_embedded_c/MQTTClient/src/MQTTClient.h:351-362 | takes the first free place, or none when there is none |
| ClientSession.Client.FreeQoS2msgid | paho_mqtt_embedded_c/MQTTClient/src/MQTTClient.h:366-376 | frees the first place with the identifier |
| ClientSession.Client.DeliverMessage | paho_mqtt_embedded_c/MQTTClient/src/MQTTClient.h:545-572 | calls exactly the handlers whose filter equals or matches the topic, in order, and the default handler exactly when there is none |
| ClientSession.Client.HandlePublish | paho_mqtt_embedded_c/MQTTClient/src/MQTTClient.h:618-659 | table, callbacks and wire become those of the log with this packet, for every parse, a negative payload length included; Delivery says from the packet's bytes who is called with what and what is answered |
| ClientSession.Client.HandleRelease | paho_mqtt_embedded_c/MQTTClient/src/MQTTClient.h:661-676 | PUBREC is answered by PUBREL and PUBREL by PUBCOMP with the identifier of the packet; an answered PUBREL frees that identifier and no other, and success means that the answer went out in full |
| ClientSession.Client.Keepalive | paho_mqtt_embedded_c/MQTTClient/src/MQTTClient.h:700-730 | a ping is sent exactly when the interval is not 0, none is outstanding and the timer of what was sent or of what was received last has expired; it is outstanding exactly when sending succeeded; with one outstanding it fails exactly when its timer has expired |
| ClientSession.Client.Cycle | paho_mqtt_embedded_c/MQTTClient/src/MQTTClient.h:597-696 | one cycle over any network adds to the log the packet read with its answer, then at most a ping and the cleaning of a connected clean session; receive table, callbacks, slot and the bytes on the wire in both directions are those of the log before and after; on a faultless network the packet read is the one at the front of the stream; the answer goes out in full on an eager network in time; a packet that calls for nothing leaves the session as it was, PINGRESP clearing the outstanding ping |
| ClientSession.Client.WaitFor | paho_mqtt_embedded_c/MQTTClient/src/MQTTClient.h:735-748 | terminates; the log grows by packets read, pings and at most cleaning, the session being cleaned only if it was connected and clean; a positive result is the kind of the packet last read, which is in the buffer; an awaited acknowledgement at the front of a faultless network is found, and nothing else happens |
| ClientSession.Client.Yield | paho_mqtt_embedded_c/MQTTClient/src/MQTTClient.h:577-593 | terminates; the log grows by packets read, pings and cleaning only, so no table entry and no stored publish changes without its packet or cleaning; while there is time packets are read, first the one at the front of a faultless network; with nothing to read and no keep-alive it succeeds and the connection stays |
| ClientSession.Client.GetNext | paho_mqtt_embedded_c/MQTTClient/src/MQTTClient.h:92-95 | packet identifiers run through 1..65535 |
| ClientSession.Client.PublishAndWait | paho_mqtt_embedded_c/MQTTClient/src/MQTTClient.h:955-999 | the packet in the send buffer reaches the wire as far as the log says, in full on success; success at QoS 1 or 2 means that the acknowledgement of that QoS was read last; one with the in-flight identifier empties the slot; a failure closes the session; it succeeds whenever the network takes the packet in time and the acknowledgement is at hand |
| ClientSession.Client.Publish | paho_mqtt_embedded_c/MQTTClient/src/MQTTClient.h:1004-1042 | a packet too long for the buffer sends nothing and fails; otherwise a kept session stores the message under the next identifier and its serialized form goes out, in full on success; the slot is empty after an acknowledgement that names it; it succeeds whenever the network takes the packet in time and, for QoS 1 and 2, its acknowledgement is at hand |
| ClientSession.Client.Connect | paho_mqtt_embedded_c/MQTTClient/src/MQTTClient.h:752-810 | CONNECT goes out unless it is too long; once it is out in full the stored publish goes out again byte for byte, and without one the result is the code of the CONNACK at hand; connected afterwards exactly on success; with a stored publish it succeeds whenever the network takes the packets in time and a CONNACK and the publish's acknowledgement are at hand |
| ClientSession.Client.Disconnect | paho_mqtt_embedded_c/MQTTClient/src/MQTTClient.h:1061-1070 | sends DISCONNECT and closes the session; slot, stored bytes and receiver stay unless it is a clean one |
| ClientSession.Client.SetMessageHandler | paho_mqtt_embedded_c/MQTTClient/src/MQTTClient.h:830-869 | afterwards the filter has the callback, or no place if it was removed, and every other filter its handler; fails exactly when there is neither the filter nor, for an addition, a free place |
| ClientSession.Client.Subscribe | paho_mqtt_embedded_c/MQTTClient/src/MQTTClient.h:873-908 | sends the SUBSCRIBE with the next identifier; success means that a SUBACK was read last, and the handler is installed, or removed for a null one, exactly as its contents say; a failure closes the session; it succeeds whenever the network takes the packet in time, the SUBACK is at hand and the table has a place; stored publish and receiver change only by what is read or by cleaning |
| ClientSession.Client.Unsubscribe | paho_mqtt_embedded_c/MQTTClient/src/MQTTClient.h:920-951 | sends the UNSUBSCRIBE; success means that an UNSUBACK was read last and the filter's handler removed; a failure closes the session; it succeeds whenever the network takes the packet in time and the UNSUBACK is at hand |
| ClientSession.Client.SetDefaultMessageHandler | paho_mqtt_embedded_c/MQTTClient/src/MQTTClient.h:130-136 | from then on that callback takes the messages that no other handler takes |
| ClientSession.Client.AwaitSuback | paho_mqtt_embedded_c/MQTTClient/src/MQTTClient.h:888-902 | after the answer the handler is installed exactly when the SUBACK, read as the code reads it, does not refuse, and removed after every UNSUBACK |
| ClientSession.Client.Handshake | paho_mqtt_embedded_c/MQTTClient/src/MQTTClient.h:767-801 | after the answer to CONNECT, or none, the stored publish goes out again and its result replaces that of the CONNACK; without one the code of the CONNACK at hand is the result |
| ClientSession.Perform | paho_mqtt_embedded_c/MQTTClient/src/MQTTClient.h:299-1070 | every call of the API, the handler setters included, has its outcome |
| ClientSession.RunSession | paho_mqtt_embedded_c/MQTTClient/src/MQTTClient.h:299-1070 | any program of API calls over any network: each call has the outcome described for it, client and wire are those of the log, and a faultless network is read packet by packet; two deliveries of a QoS 2 identifier without cleaning between them have a PUBREL for it (or one too short to name an identifier, which finds it in uninitialised memory), read and answered in full, between them; each identifier delivered since the last cleaning as often as freed, plus once while in the table; 0 never delivered |
| ClientSession.ConnectsUnheard | paho_mqtt_embedded_c/MQTTClient/src/MQTTClient.h:771-805 | every client that keeps a QoS 0 publish connects successfully to a network that takes everything and says nothing, without reading a byte |
| ClientSession.UnheardRun | paho_mqtt_embedded_c/MQTTClient/src/MQTTClient.h:752-810 | such a client arises: for all options of a kept session and all QoS 0 messages that fit, a new client connects, publishes and disconnects, and its next connect succeeds without reading a byte |
| ClientSession.ConnectsHeard | paho_mqtt_embedded_c/MQTTClient/src/MQTTClient.h:752-810 | on bytes: a new client on a calm network in time whose stream is 32 2 flags code and the rest: the result is the code, it is connected exactly when the code is 0, and the rest is left |
| ClientSession.KeepsPublish | paho_mqtt_embedded_c/MQTTClient/src/MQTTClient.h:1004-1042 | in a kept session a QoS 0 publish under an identifier stays in the store after disconnecting |
| Delivery.PublishHeard | paho_mqtt_embedded_c/MQTTClient/src/MQTTClient.h:618-659 | for every PUBLISH in bytes that a client reads: the callbacks made are exactly one for each handler whose filter is the topic or matches it by the rule of ClientExactly, in table order, the default one exactly when there is none, each with exactly the message sent; at QoS 2 only if the identifier is not in the table and a place is free; answered by nothing, PUBACK or PUBREC with its identifier |
| Delivery.ReleaseHeard | paho_mqtt_embedded_c/MQTTClient/src/MQTTClient.h:661-676 | PUBREC is answered by 98 2 hi lo and PUBREL by 112 2 hi lo; an answered PUBREL takes exactly its identifier out of the table |
| Delivery.SelectedTakers | paho_mqtt_embedded_c/MQTTClient/src/MQTTClient.h:545-572 | the calls made for a message are those of the handlers that take its topic, each once, in table order |
| Delivery.HearsPublish | paho_mqtt_embedded_c/MQTTClient/src/MQTTClient.h:597-659 | one cycle of any client on a faultless network with a PUBLISH at its front: those calls are made, the rest of the stream is left, and the answer is put on the wire in full if the network takes it in time |
| Delivery.HearsRelease | paho_mqtt_embedded_c/MQTTClient/src/MQTTClient.h:597-676 | likewise for PUBREC and PUBREL: no call, the rest is left, the answer is put on the wire |
| Delivery.CleanedAfresh | paho_mqtt_embedded_c/MQTTClient/src/MQTTClient.h:300-315 | cleaning leaves ten empty places, no handler and no stored publish, and nothing counts as delivered since, whatever came before |
| Delivery.EndedAfresh | paho_mqtt_embedded_c/MQTTClient/src/MQTTClient.h:319-325 | a clean session ended by a failing publish, subscribe or unsubscribe or by disconnect leaves nothing behind |
| Delivery.DeliveredAfterCleaning | paho_mqtt_embedded_c/MQTTClient/src/MQTTClient.h:300-315 | a QoS 2 PUBLISH right after cleaning is delivered, whatever identifiers were in use before |
| Delivery.DeliveredSince | paho_mqtt_embedded_c/MQTTClient/src/MQTTClient.h:300-315 | until the next cleaning, the deliveries that the receiver counts are exactly the QoS 2 messages since the last one |
| SessionLog.FrontAt | paho_mqtt_embedded_c/MQTTClient/src/MQTTClient.h:449-497 | in the log of a faultless network every packet read is the one at the front of what was left of the stream, and no more was taken |
| SessionLog.AtMostOnce | paho_mqtt_embedded_c/MQTTClient/src/MQTTClient.h:618-676 | in every log of a client two deliveries of an identifier without cleaning between them have a PUBREL between them that was read from the network and answered in full, and that names it, or is too short to name one and finds it in uninitialised memory; 0 is never delivered |
| SessionLog.DeliveredAgain | paho_mqtt_embedded_c/MQTTClient/src/MQTTClient.h:618-676 | for every identifier a PUBLISH, its PUBREL and the PUBLISH again make a log of a client in which the message is delivered both times |
| SessionLog.StaysInTable | paho_mqtt_embedded_c/MQTTClient/src/MQTTClient.h:339-376 | an identifier stays in the table until an answered PUBREL for it or cleaning |
| SessionLog.ReplayLawful | paho_mqtt_embedded_c/MQTTClient/src/MQTTClient.h:299-376 | for every log the table entries are distinct and each identifier was delivered since the last cleaning as often as it was freed, plus once while in the table |
| SessionLog.SlotKept | paho_mqtt_embedded_c/MQTTClient/src/MQTTClient.h:1019-1031 | the stored publish changes only by a newer publish, an acknowledgement or cleaning |
| SessionLog.SettledByAck | paho_mqtt_embedded_c/MQTTClient/src/MQTTClient.h:962-990 | the slot is emptied by acknowledgement only when the packet read last is a PUBACK or PUBCOMP that names its identifier, or is too short to name one and finds it in uninitialised memory |
| SessionLog.InstallingKeeps | paho_mqtt_embedded_c/MQTTClient/src/MQTTClient.h:830-869 | filters stay distinct and other filters keep their handlers; the filter has the callback afterwards exactly if it had a place or there was an empty one |
| SessionLog.HandlersDistinct | paho_mqtt_embedded_c/MQTTClient/src/MQTTClient.h:830-869 | the filters of the handler table are distinct after every log |
| SessionRuns.Retransmitted | paho_mqtt_embedded_c/MQTTClient/src/MQTTClient.h:784-801 | a publish that was stored and neither replaced, acknowledged nor cleaned away goes out again, byte for byte, with the next CONNECT that is sent in full; on success all its bytes reach the wire |
| SessionRuns.ConnackUnheeded | paho_mqtt_embedded_c/MQTTClient/src/MQTTClient.h:771-805 | with a stored publish the result of connect is that of the publish whatever the CONNACK says or whether there is one; for QoS 0 connected exactly when all its bytes went out |
| SessionRuns.RefusalInstalls | paho_mqtt_embedded_c/MQTTClient/src/MQTTClient.h:895-899 | a SUBACK that refuses the subscription installs the handler exactly where char is signed |
| SessionRuns.SubackMeaning | paho_mqtt_embedded_c/MQTTClient/src/MQTTClient.h:888-902 | from a SUBACK's bytes: without a code it installs the handler, with one or two the first decides, with more it does not |
| SessionRuns.IdsRunRound | paho_mqtt_embedded_c/MQTTClient/src/MQTTClient.h:92-95 | the k-th identifier handed out from any state of the counter, in closed form over the cycle 1..65535 |
| SessionRuns.IdsDiffer | paho_mqtt_embedded_c/MQTTClient/src/MQTTClient.h:92-95 | no identifier comes twice among 65535 handed out in a row |
| SessionRuns.CallBytes | paho_mqtt_embedded_c/MQTTClient/src/MQTTClient.h:752-1070 | the bytes that each call of the API sends first, in numbers: connect, publish with the next identifier of the cycle 1..65535, subscribe, unsubscribe, disconnect; a publish of a kept session is stored before with the same bytes; a packet longer than the buffer is not sent and the call fails |
| Qos2Receiver.StepLawful | paho_mqtt_embedded_c/MQTTClient/src/MQTTClient.h:339-376 | each QoS 2 PUBLISH or answered PUBREL keeps the entries distinct and the delivery count law |
| Qos2Receiver.StepKeeps | paho_mqtt_embedded_c/MQTTClient/src/MQTTClient.h:366-376 | only its own PUBREL takes an identifier out of the table |
| Qos2Receiver.FreedOnly | paho_mqtt_embedded_c/MQTTClient/src/MQTTClient.h:366-376 | freeing an identifier takes out that one and no other |
| EndToEnd.Transfer | paho_mqtt_embedded_c/MQTTClient/src/MQTTClient.h:381-497 | a message serialized, sent with any partial writes and received in any pieces parses back unchanged, and the following bytes are left for the next packet; it is sent in full whenever every write takes something and the timer allows as many writes as there are bytes, the last one excepted |
| EndToEnd.ReceiveMessage | paho_mqtt_embedded_c/MQTTClient/src/MQTTClient.h:413-497 | reading and parsing a stream that starts with the packet returns the message |
| EndToEnd.SendMessage | paho_mqtt_embedded_c/MQTTClient/src/MQTTClient.h:381-410 | a successful send puts exactly the packet on the wire; it succeeds whenever every write takes something and the timer allows as many writes as there are bytes, the last one excepted |
| ClientMatcher.IsTopicMatched | paho_mqtt_embedded_c/MQTTClient/src/MQTTClient.h:504-540 | the two cursors terminate with the decision of the character-level definition |
| ClientMatcher.CursorIsLevels | paho_mqtt_embedded_c/MQTTClient/src/MQTTClient.h:504-540 | for every well-formed filter and every name that decision is one on levels: '+' and '#' refuse an empty level, and one extra empty level is accepted |
| ClientMatcher.ClientExactly | paho_mqtt_embedded_c/MQTTClient/src/MQTTClient.h:504-540 | for every well-formed filter and every name: the client matches exactly when no wildcard meets an empty level and the standard matches, or the filter matches but for one empty level more |
| ClientMatcher.PairsWhereClientAgrees | paho_mqtt_embedded_c/MQTTClient/src/MQTTClient.h:504-540 | client and standard differ on a filter and a name exactly when the standard matches but a wildcard meets an empty level, or the filter has one empty level more |
| ClientMatcher.AgreeOnFullNames | paho_mqtt_embedded_c/MQTTClient/src/MQTTClient.h:500-540 | on names without empty levels it is the rule of section 4.7.1 for every well-formed filter not ending in '/', '#' matching the parent level included |
| ClientMatcher.NamesWhereClientAgrees | paho_mqtt_embedded_c/MQTTClient/src/MQTTClient.h:512-523 | a name has no empty level exactly when the client agrees with the standard for every well-formed filter not ending in '/' |
| ClientMatcher.FiltersWhereClientAgrees | paho_mqtt_embedded_c/MQTTClient/src/MQTTClient.h:512-537 | a filter has no wildcard and does not end in '/' exactly when the client agrees with the standard on every name |
| ClientMatcher.MatchTopic | paho_mqtt_embedded_c/MQTTClient/src/MQTTClient.h:504-540 | the matcher on strings: true exactly when no wildcard meets an empty level and the standard matches, or would but for one empty level more in the filter; the standard's decision on names without empty levels |
| GatewayMatcher.IsMatch | paho_mqtt-sn_embedded_c/MQTTSNGateway/src/MQTTSNGWTopic.cpp:66-156 | the find/substr loop terminates with the decision of its level-by-level reading |
| GatewayMatcher.GatewayExact | paho_mqtt-sn_embedded_c/MQTTSNGateway/src/MQTTSNGWTopic.cpp:66-156 | for every well-formed filter and every name the decision is the standard's except that a filter ending in '+/#' misses the name ending at that '+' |
| GatewayMatcher.GatewayMisses | paho_mqtt-sn_embedded_c/MQTTSNGateway/src/MQTTSNGWTopic.cpp:138-150 | a concrete filter and name of the missed family |
| GatewayMatcher.MatchTopic | paho_mqtt-sn_embedded_c/MQTTSNGateway/src/MQTTSNGWTopic.cpp:66-156 | the exact meaning of isMatch on strings |
| TopicLevels.SplitJoin | paho_mqtt-sn_embedded_c/MQTTSNGateway/src/MQTTSNGWTopic.cpp:79-85 | cutting a string into levels loses nothing |
| TopicLevels.JoinSplit | paho_mqtt-sn_embedded_c/MQTTSNGateway/src/MQTTSNGWTopic.cpp:79-85 | every sequence of levels without '/' is the cutting of a string |
| Topics.Topics.GetTopicByName | paho_mqtt-sn_embedded_c/MQTTSNGateway/src/MQTTSNGWTopic.cpp:184-199 | finds the topic with the name, if there is one |
| Topics.Topics.GetTopicById | paho_mqtt-sn_embedded_c/MQTTSNGateway/src/MQTTSNGWTopic.cpp:201-214 | the first topic of that type and identifier, if there is one; for a normal identifier it is the topic it was allocated to |
| Topics.Topics.Add | paho_mqtt-sn_embedded_c/MQTTSNGateway/src/MQTTSNGWTopic.cpp:217-232 | refuses other types; a known name changes nothing; otherwise a normal topic is appended under the C string with the next identifier, unless that is known or the list has 50 |
| Topics.Topics.AddName | paho_mqtt-sn_embedded_c/MQTTSNGateway/src/MQTTSNGWTopic.cpp:234-298 | a list of 50 refuses; a known name changes nothing; a new one is appended with the next identifier of the cycle or the given one |
| Topics.Topics.GetNextTopicId | paho_mqtt-sn_embedded_c/MQTTSNGateway/src/MQTTSNGWTopic.cpp:300-303 | the counter gives the next identifier of the cycle 1..65534, over the 16-bit wraparound |
| Topics.Topics.Match | paho_mqtt-sn_embedded_c/MQTTSNGateway/src/MQTTSNGWTopic.cpp:305-323 | the first topic that matches by the gateway's matcher, or none exactly when no topic does |
| Topics.Topics.EraseNormal | paho_mqtt-sn_embedded_c/MQTTSNGateway/src/MQTTSNGWTopic.cpp:326-355 | what remains are the topics at the increasing positions of exactly those that are not normal, with the count right and the counter untouched |
| Topics.NormalIdsDistinct | paho_mqtt-sn_embedded_c/MQTTSNGateway/src/MQTTSNGWTopic.cpp:234-303 | live normal topics have pairwise distinct identifiers in 1..65534 |
| Topics.Perform | paho_mqtt-sn_embedded_c/MQTTSNGateway/src/MQTTSNGWTopic.cpp:201-355 | one operation does to the list, seen as values, what it does to the plain listing |
| Topics.ViewKeepers | paho_mqtt-sn_embedded_c/MQTTSNGateway/src/MQTTSNGWTopic.cpp:326-355 | erasing normal topics from the list and then viewing it as values is erasing them from the view |
| Topics.RunTopics | paho_mqtt-sn_embedded_c/MQTTSNGateway/src/MQTTSNGWTopic.cpp:201-355 | after any sequence of registrations and erasures the linked list, well formed from its first node on, holds what a replay of the sequence on plain values gives; count is the list length and at most 50, names distinct, normal identifiers distinct and in range |
| IdCycle.CounterSteps | paho_mqtt-sn_embedded_c/MQTTSNGateway/src/MQTTSNGWClient.cpp:332-340 | both 16-bit counters step through the same cycle 1..65534 |
| IdCycle.SameId | paho_mqtt-sn_embedded_c/MQTTSNGateway/src/MQTTSNGWTopic.cpp:300-303 | two allocations share an identifier exactly when a whole number of cycles lies between them |
| MessageIdTable.Table.Add | paho_mqtt-sn_embedded_c/MQTTSNGateway/src/MQTTSNGWMessageIdTable.cpp:48-88 | refuses exactly a table of more than 500 or a waiting pair; otherwise appends the pair under a newly allocated identifier; list, serials and counter become those of the ledger |
| MessageIdTable.Table.GetClientMsgId | paho_mqtt-sn_embedded_c/MQTTSNGateway/src/MQTTSNGWMessageIdTable.cpp:119-133 | returns the pair of the first entry with the identifier and takes exactly that entry out, relinking the list; none exactly when no entry has it |
| MessageIdTable.Table.GetMsgId | paho_mqtt-sn_embedded_c/MQTTSNGateway/src/MQTTSNGWMessageIdTable.cpp:183-192 | the identifier of the pair, 0 when it is not waiting |
| MessageIdTable.Table.NextMsgId | paho_mqtt-sn_embedded_c/MQTTSNGateway/src/MQTTSNGWAggregater.cpp:65-68 | draws the next identifier of the cycle from the shared connection |
| MessageIdTable.RecentDistinct | paho_mqtt-sn_embedded_c/MQTTSNGateway/src/MQTTSNGWMessageIdTable.cpp:48-88 | while no entry outlives 65533 later allocations, identifiers are distinct |
| MessageIdTable.CollideExactly | paho_mqtt-sn_embedded_c/MQTTSNGateway/src/MQTTSNGWClient.cpp:332-340 | two entries share an identifier exactly when they are a whole number of cycles apart |
| MessageIdTable.ConvertsOnce | paho_mqtt-sn_embedded_c/MQTTSNGateway/src/MQTTSNGWAggregater.cpp:70-94 | while entries are recent each identifier converts back to its own pair, and a second time to none |
| MessageIdTable.ConvertsExactly | paho_mqtt-sn_embedded_c/MQTTSNGateway/src/MQTTSNGWAggregater.cpp:70-94 | a waiting identifier converts back to its own pair exactly when no older entry is a whole number of cycles older |
| MessageIdTable.TranslatesOnce | paho_mqtt-sn_embedded_c/MQTTSNGateway/src/MQTTSNGWAggregater.cpp:70-94 | in any run the identifier that a registration returned, acknowledged for the first time, gives back the pair registered, and from then on nothing until it is returned anew, provided no entry has outlived 65533 later allocations |
| MessageIdTable.StaysWaiting | paho_mqtt-sn_embedded_c/MQTTSNGateway/src/MQTTSNGWMessageIdTable.cpp:119-133 | an entry waits until its identifier is acknowledged |
| MessageIdTable.ReplaySound | paho_mqtt-sn_embedded_c/MQTTSNGateway/src/MQTTSNGWMessageIdTable.cpp:48-192 | after any run pairs are distinct, at most 501 wait, and identifiers are those of their allocations in order |
| MessageIdTable.Perform | paho_mqtt-sn_embedded_c/MQTTSNGateway/src/MQTTSNGWMessageIdTable.cpp:48-192 | one operation does to the linked table what it does to the ledger, with the ledger's answer |
| MessageIdTable.StaleEntryCaptures | paho_mqtt-sn_embedded_c/MQTTSNGateway/src/MQTTSNGWMessageIdTable.cpp:90-102 | a concrete run of operations after which an entry that outlived a cycle captures the acknowledgement of a newer one |
| MessageIdTable.RunTable | paho_mqtt-sn_embedded_c/MQTTSNGateway/src/MQTTSNGWMessageIdTable.cpp:48-192 | after any sequence of registrations, acknowledgements and foreign allocations the doubly linked table, well formed and with exact count of at most 501, is the ledger that the sequence describes, and every operation answered as that ledger says |
| LinkedLists.DoublyLinked.Unlink | paho_mqtt-sn_embedded_c/MQTTSNGateway/src/MQTTSNGWMessageIdTable.cpp:143-180 | taking out any node leaves a well-formed doubly linked list of the others in order |
| LinkedLists.DoublyLinked.Append | paho_mqtt-sn_embedded_c/MQTTSNGateway/src/MQTTSNGWMessageIdTable.cpp:61-79 | appending keeps the doubly linked list well formed |
| LinkedLists.DoublyLinked.Find | paho_mqtt-sn_embedded_c/MQTTSNGateway/src/MQTTSNGWMessageIdTable.cpp:90-116 | the search loop returns the first link with the property |
| WaitedTopics.TopicIdMap.Add | paho_mqtt-sn_embedded_c/MQTTSNGateway/src/MQTTSNGWTopic.cpp:440-469 | is the update of a plain map, accepted exactly when at most 20 wait and the topic id is not 0 or the topic a short one |
| WaitedTopics.TopicIdMap.Erase | paho_mqtt-sn_embedded_c/MQTTSNGateway/src/MQTTSNGWTopic.cpp:471-502 | removes the identifier; the counter stays right exactly when it was present |
| WaitedTopics.TopicIdMap.GetElement | paho_mqtt-sn_embedded_c/MQTTSNGateway/src/MQTTSNGWTopic.cpp:426-438 | the map's entry for the identifier |
| WaitedTopics.TopicIdMap.Clear | paho_mqtt-sn_embedded_c/MQTTSNGateway/src/MQTTSNGWTopic.cpp:504-516 | the empty map |
| WaitedTopics.TopicIdMap.Acknowledge | paho_mqtt-sn_embedded_c/MQTTSNGateway/src/MQTTGWPublishHandler.cpp:180-197 | the reply carries the recorded topic id, which is then forgotten; other acknowledgements change nothing |
| WaitedTopics.ReplayIsLatest | paho_mqtt-sn_embedded_c/MQTTSNGateway/src/MQTTSNGWTopic.cpp:426-502 | the bounded map holds for each identifier its latest accepted recording since the last acknowledgement or reset |
| WaitedTopics.RunMap | paho_mqtt-sn_embedded_c/MQTTSNGateway/src/MQTTGWSubscribeHandler.cpp:33-62 | over any sequence of recordings, acknowledgements and resets the counter is the number of identifiers waited for, at most 21, and lookup finds the latest accepted recording |
| LinkedLists.Que.Post | paho_mqtt-sn_embedded_c/MQTTSNGateway/src/MQTTSNGWProcess.h:209-238 | appends, unless there is nothing to store or the bound is reached |
| LinkedLists.Que.Pop | paho_mqtt-sn_embedded_c/MQTTSNGateway/src/MQTTSNGWProcess.h:176-193 | removes the first element of the linked queue |
| LinkedLists.Que.Front | paho_mqtt-sn_embedded_c/MQTTSNGateway/src/MQTTSNGWProcess.h:195-207 | the first element, if any |
| SleepBuffer.Sleeper.HandlePublish | paho_mqtt-sn_embedded_c/MQTTSNGateway/src/MQTTGWPublishHandler.cpp:38-140 | a sleeping client's message is acknowledged to the broker and accepted exactly when memory and the bound of 20 allow; an active or awake client's is handed on, or acknowledged and dropped when no topic matches; other states do nothing |
| SleepBuffer.Sleeper.SendStoredPublish | paho_mqtt-sn_embedded_c/MQTTSNGateway/src/MQTTSNGWConnectionHandler.cpp:292-305 | terminates with the queue empty, every accepted message taken out and posted in order of arrival |
| SleepBuffer.Sleeper.HandleConnect | paho_mqtt-sn_embedded_c/MQTTSNGateway/src/MQTTSNGWConnectionHandler.cpp:69-96 | a client that slept gets its stored messages; for any other, or a CONNECT that does not parse, the queue is untouched |
| SleepBuffer.Sleeper.HandlePingreq | paho_mqtt-sn_embedded_c/MQTTSNGateway/src/MQTTSNGWConnectionHandler.cpp:273-290 | drains the queue of a sleeping or awake client; the ping is held back exactly when something was stored |
| SleepBuffer.Sleeper.GetClientSleepPacket | paho_mqtt-sn_embedded_c/MQTTSNGateway/src/MQTTSNGWClient.h:59-73 | the first stored message, if any |
| SleepBuffer.Sleeper.FromClient | paho_mqtt-sn_embedded_c/MQTTSNGateway/src/MQTTSNGWClient.cpp:225-285 | handler, then status change, for every packet of the client |
| SleepBuffer.RunSleeper | paho_mqtt-sn_embedded_c/MQTTSNGateway/src/MQTTSNGWConnectionHandler.cpp:273-305 | over any sequence of handler steps the messages taken from the queue followed by those in it are the accepted ones in order, at most 20 wait, and status, accepted, taken and forwarded messages and the acknowledgements are those of a replay without any queue |
| SleepBuffer.Perform | paho_mqtt-sn_embedded_c/MQTTSNGateway/src/MQTTSNGWConnectionHandler.cpp:69-305 | one step does to the client and its queue what it does to the account |
| SleepBuffer.SleepsAndWakes | paho_mqtt-sn_embedded_c/MQTTSNGateway/src/MQTTSNGWClient.cpp:248-282 | after any run that leaves the client active with nothing stored: DISCONNECT with a duration, then up to 20 messages with memory are acknowledged and stored in order; the next PINGREQ takes them all; after PINGRESP 20 more can be stored |
| SleepBuffer.StoredAsleep | paho_mqtt-sn_embedded_c/MQTTSNGateway/src/MQTTGWPublishHandler.cpp:46-74 | messages for a sleeping client are acknowledged and stored in order while at most 20 wait |
| SleepBuffer.FullAsleep | paho_mqtt-sn_embedded_c/MQTTSNGateway/src/MQTTSNGWProcess.h:209-238 | when 20 wait, one more is not stored |
| SleepBuffer.GoneForGood | paho_mqtt-sn_embedded_c/MQTTSNGateway/src/MQTTSNGWClient.cpp:255-258 | after DISCONNECT without a duration nothing is stored, handed on or acknowledged |
| SleepBuffer.ConnectWakes | paho_mqtt-sn_embedded_c/MQTTSNGateway/src/MQTTSNGWClient.cpp:268-270 | CONNECT takes the stored messages of a sleeper, and the next message is handed on at once |
| SleepBuffer.OtherChanges | paho_mqtt-sn_embedded_c/MQTTSNGateway/src/MQTTSNGWClient.cpp:225-285 | any DISCONNECT ends the sleep; other states stay except that a CONNECT starts the client afresh |

## Left out

- Sockets, TLS, threads, semaphores, ring buffer, configuration, logging and samples: input/output without a property of its own.
- Deallocation and pointer lifetime; a node that is taken out of a structure is simply no longer reachable.
- Tree23Heap: entries are values, so the element that removeMax fills through a pointer is a result instead.
- The MQTT-SN client, the C client and MQTT-SN framing: near copies or straight-line code.
- Parsing of CONNACK, SUBACK and UNSUBACK has no members of its own: the session reads the fields it uses. A SUBACK with two or more codes also writes past its one-element array, which is not modelled.
- Overflow of `int` in length sums: lengths are unbounded, and serializers are specified up to the protocol's limit of 268435455 or the size of the buffer.
- Subscriptions.ReadEntries: the capacity of the caller's arrays is not modelled, because the code never looks at `maxcount`; the result is a list.
- ClientSession.Client.DeliverMessage: callbacks are recorded and do not call back into the client.
- Publish.SerializePublish: a string given in both forms with different lengths is excluded, because the length field would then be wrong and the buffer could be overrun.
- Subscriptions.SerializeRequest: a string given in both forms with different lengths is excluded, because the length field would then be wrong and the buffer could be overrun.
- Connect.SerializeConnect: a string given in both forms with different lengths is excluded, because the length field would then be wrong and the buffer could be overrun; so is a version other than 3 and 4, whose length is not counted.
- ClientSession.Client.Keepalive: timers are scripts, so no statement relates pings to time.
- SleepBuffer.Sleeper.HandlePublish: the topic lookup and REGISTER for an active client are a parameter; only whether the message is handed on or dropped is modelled.
- SleepBuffer.Sleeper.SendStoredPublish: the packet event queue that takes the messages is bounded too and may drop them; what happens to them there is not modelled.
- Acknowledgements when a stored message is handled a second time after waking: only conservation of messages is stated.
- The aggregating path's rewriting of message ids inside packets, Forwarder and the aggregate topic table: unfinished in the repository or not meeting their evident purpose.
- Topics with memory exhausted while adding: `new` always succeeds, except for the stored copy of a sleeping client's message.
