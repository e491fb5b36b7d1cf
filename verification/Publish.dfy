/**
PUBLISH and the acknowledgement packets: MQTTSerializePublish.c and MQTTDeserializePublish.c
(sections 3.3 to 3.7 of MQTT Version 3.1.1).
*/
module Publish {
  import opened Basics
  import opened Wire

  const PUBLISH := 3
  const PUBACK := 4
  const PUBREC := 5
  const PUBREL := 6
  const PUBCOMP := 7

  // ---------- serializing ----------

  function PublishLength(qos: int, topic: MqttString, payloadlen: nat): nat {
    2 + StrLen(topic) + payloadlen + if qos > 0 then 2 else 0
  }

  function PublishBody(qos: int, id: nat, topic: bytes, payload: bytes): bytes {
    Prefixed(topic) + (if qos > 0 then U16(id) else []) + payload
  }

  function PublishPacket(dup: nat, qos: int, retained: nat, id: nat, topic: bytes, payload: bytes): bytes {
    Packet(HeaderByte(PUBLISH, dup, qos, retained), PublishBody(qos, id, topic, payload))
  }

  // The result is the length of the packet, which is then the front of the buffer; a packet that
  // the predictor finds too long leaves the buffer alone.
  method SerializePublish(buf: array<byte>, buflen: nat, dup: nat, qos: int, retained: nat, id: nat,
                          topic: MqttString, payload: bytes) returns (rc: int)
    requires buflen <= buf.Length && Counted(topic)
    requires PublishLength(qos, topic, |payload|) <= MAX_REMAINING || buflen <= MAX_REMAINING
    modifies buf
    ensures rc == BUFFER_TOO_SHORT <==> PacketLen(PublishLength(qos, topic, |payload|)) > buflen
    ensures rc == BUFFER_TOO_SHORT ==> buf[..] == old(buf[..])
    ensures var p := PublishPacket(dup, qos, retained, id, StrBytes(topic), payload);
            rc != BUFFER_TOO_SHORT ==>
              0 < rc == |p| <= buflen && buf[..] == Write(old(buf[..]), 0, p)
  {
    hide EncodeLen, HeaderByte, Write, U16, PacketLen, StrBytes;
    ghost var b0 := buf[..];
    ghost var t := StrBytes(topic);
    StrLenExact(topic);
    var remLen := PublishLength(qos, topic, |payload|);
    PacketLenGrows(remLen);
    if PacketLen(remLen) > buflen {
      return BUFFER_TOO_SHORT;
    }
    PacketLenExact(remLen);
    ghost var h := [HeaderByte(PUBLISH, dup, qos, retained)] + EncodeLen(remLen);
    var ptr := WriteHeader(buf, HeaderByte(PUBLISH, dup, qos, retained), remLen);
    ptr := WriteString(buf, ptr, topic);
    WriteThen(b0, 0, h, Prefixed(t));
    ghost var i: bytes := if qos > 0 then U16(id) else [];
    if qos > 0 {
      ptr := WriteInt(buf, ptr, id);
    } else {
      WriteNothing(buf[..], ptr);
    }
    WriteThen(b0, 0, h + Prefixed(t), i);
    ptr := WriteBytes(buf, ptr, payload);
    WriteThen(b0, 0, h + Prefixed(t) + i, payload);
    assert h + Prefixed(t) + i + payload == h + PublishBody(qos, id, t, payload);
    rc := ptr;
  }

  function AckPacket(kind: nat, dup: nat, id: nat): (p: bytes)
    ensures |p| == 4
  {
    Packet(HeaderByte(kind, dup, if kind == PUBREL then 1 else 0, 0), U16(id))
  }

  method SerializeAck(buf: array<byte>, buflen: nat, kind: nat, dup: nat, id: nat) returns (rc: int)
    requires buflen <= buf.Length
    modifies buf
    ensures rc == if buflen < 4 then BUFFER_TOO_SHORT else 4
    ensures buflen < 4 ==> buf[..] == old(buf[..])
    ensures buflen >= 4 ==> buf[..] == Write(old(buf[..]), 0, AckPacket(kind, dup, id))
  {
    hide HeaderByte;
    if buflen < 4 {
      return BUFFER_TOO_SHORT;
    }
    ghost var b0 := buf[..];
    var h := HeaderByte(kind, dup, if kind == PUBREL then 1 else 0, 0);
    var ptr := WriteHeader(buf, h, 2);
    ptr := WriteInt(buf, ptr, id);
    WriteThen(b0, 0, [h] + EncodeLen(2), U16(id));
    rc := ptr;
  }

  // ---------- parsing ----------

  // payloadlen is what the parser reports; it is negative when a QoS 1 or 2 packet ends inside
  // its packet identifier.
  datatype PublishIn =
    | PublishBad
    | PublishIn(dup: nat, qos: nat, retained: nat, id: nat, topic: bytes, payload: bytes, payloadlen: int)

  // The two bytes after the packet may be read as its packet identifier.
  function ParsePublish(mem: bytes): PublishIn
    requires Framed(mem, 2)
  {
    ParseParts(mem[0], Body(mem), mem[BodyEnd(mem)..])
  }

  function ParseParts(h: byte, body: bytes, after: bytes): PublishIn
    requires |after| >= 2
  {
    var t := TakeString(body);
    if HeaderType(h) != PUBLISH || t.None? then PublishBad
    else
      var (topic, rest) := t.value;
      if HeaderQos(h) > 0 then
        PublishIn(HeaderDup(h), HeaderQos(h), HeaderRetain(h), ReadU16(rest + after), topic,
                  if |rest| < 2 then [] else rest[2..], |rest| - 2)
      else
        PublishIn(HeaderDup(h), 0, HeaderRetain(h), 0, topic, rest, |rest|)
  }

  method DeserializePublish(mem: bytes) returns (rc: int, m: PublishIn)
    requires Framed(mem, 2)
    ensures m == ParsePublish(mem)
    ensures rc == if m == PublishBad then 0 else 1
  {
    hide DecodeLen, TakeString, HeaderType, HeaderQos, HeaderDup, HeaderRetain;
    var h := mem[0];
    rc, m := 0, PublishBad;
    if HeaderType(h) != PUBLISH {
      return;
    }
    var n, mylen := DecodeBuf(mem, 1);
    var curdata := 1 + n;
    var enddata := curdata + mylen;
    var ok, topic, next := ReadString(mem, curdata, enddata);
    if !ok {
      return;
    }
    curdata := next;
    var id := 0;
    var qos := HeaderQos(h);
    if qos > 0 {
      SplitAtEnd(mem, next, enddata);
      id := ReadU16(mem[curdata..curdata + 2]);
      curdata := curdata + 2;
    }
    var payload := if curdata <= enddata then mem[curdata..enddata] else [];
    m := PublishIn(HeaderDup(h), qos, HeaderRetain(h), id, topic, payload, enddata - curdata);
    rc := 1;
  }

  lemma SplitAtEnd(mem: bytes, cur: nat, end: nat)
    requires cur <= end && end + 2 <= |mem|
    ensures ReadU16(mem[cur..end] + mem[end..]) == ReadU16(mem[cur..cur + 2])
    ensures cur + 2 <= end ==> mem[cur..end][2..] == mem[cur + 2..end]
  {
    assert mem[cur..end] + mem[end..] == mem[cur..];
    assert mem[cur..][0] == mem[cur..cur + 2][0] && mem[cur..][1] == mem[cur..cur + 2][1];
    if cur + 2 <= end {
      SliceOfSlice(mem, cur, end, 2, end - cur);
    }
  }

  // A packet identifier that reaches past the packet's end: accepted, with a negative length.
  lemma NegativePayload(mem: bytes)
    requires Framed(mem, 2) && ParsePublish(mem) != PublishBad
    ensures ParsePublish(mem).payloadlen < 0 <==>
            HeaderQos(mem[0]) > 0 && |Body(mem)| < 2 + |ParsePublish(mem).topic| + 2
  {
    var (topic, rest) := TakeString(Body(mem)).value;
    assert |Body(mem)| == 2 + |topic| + |rest|;
  }

  // A QoS 1 PUBLISH with an empty topic and nothing after it.
  lemma NegativePayloadHappens()
    ensures var mem: bytes := [50, 2, 0, 0, 7, 7];
            Framed(mem, 2) && ParsePublish(mem) == PublishIn(0, 1, 0, 1799, [], [], -2)
  {
    var mem: bytes := [50, 2, 0, 0, 7, 7];
    assert mem[1..][0] == 2 && DecodeLen(mem[1..]) == Decoded(1, 2, 1);
    assert Body(mem) == [0, 0] && mem[BodyEnd(mem)..] == [7, 7];
    var body: bytes := [0, 0];
    assert ReadU16(body) == 0 && body[2..2] == [] && body[2..] == [] && TakeString(body) == Some(([], []));
  }

  lemma BodyRoundTrip(h: byte, qos: nat, id: nat, topic: bytes, payload: bytes, after: bytes)
    requires HeaderType(h) == PUBLISH && HeaderQos(h) == qos && id < 65536 && |topic| < 65536 && |after| >= 2
    ensures ParseParts(h, PublishBody(qos, id, topic, payload), after)
         == PublishIn(HeaderDup(h), qos, HeaderRetain(h), if qos > 0 then id else 0, topic, payload, |payload|)
  {
    hide U16, HeaderType, HeaderQos, HeaderDup, HeaderRetain, TakeString, Prefixed;
    var i: bytes := if qos > 0 then U16(id) else [];
    assert PublishBody(qos, id, topic, payload) == Prefixed(topic) + (i + payload);
    TakePrefixed(topic, i + payload);
    if qos > 0 {
      assert i + payload + after == U16(id) + (payload + after);
      U16RoundTrip(id, payload + after);
      assert (i + payload)[2..] == payload;
    } else {
      assert i + payload == payload;
    }
  }

  lemma ParsedTopicShort(h: byte, body: bytes, after: bytes)
    requires |after| >= 2 && ParseParts(h, body, after) != PublishBad
    ensures |ParseParts(h, body, after).topic| < 65536
  {
  }

  // A PUBLISH read back is the PUBLISH written, whatever lies after it, exactly when its topic
  // fits the two-byte length.
  lemma PublishRoundTrip(dup: nat, qos: nat, retained: nat, id: nat, topic: bytes, payload: bytes, rest: bytes)
    requires dup < 2 && qos < 3 && retained < 2 && id < 65536 && |rest| >= 2
    requires |PublishBody(qos, id, topic, payload)| <= MAX_REMAINING
    ensures Framed(PublishPacket(dup, qos, retained, id, topic, payload) + rest, 2)
    ensures |topic| < 65536 <==>
            ParsePublish(PublishPacket(dup, qos, retained, id, topic, payload) + rest)
            == PublishIn(dup, qos, retained, if qos > 0 then id else 0, topic, payload, |payload|)
  {
    hide EncodeLen, DecodeLen, U16, HeaderByte, HeaderType, HeaderQos, HeaderDup, HeaderRetain, ParseParts, PublishBody;
    var h := HeaderByte(PUBLISH, dup, qos, retained);
    var body := PublishBody(qos, id, topic, payload);
    PacketFramed(h, body, rest);
    HeaderRoundTrip(PUBLISH, dup, qos, retained);
    if |topic| < 65536 {
      BodyRoundTrip(h, qos, id, topic, payload, rest);
    } else if ParseParts(h, body, rest) != PublishBad {
      ParsedTopicShort(h, body, rest);
    }
  }

  // MQTTDeserialize_ack. A body shorter than two bytes leaves the packet identifier unset but
  // returns the size of the length field, which for a short packet is the success code 1.
  datatype AckIn = AckIn(rc: nat, kind: nat, dup: nat, id: Option<nat>)

  method DeserializeAck(mem: bytes) returns (a: AckIn)
    requires Framed(mem, 0)
    ensures a == ParseAck(mem)
  {
    hide DecodeLen, HeaderType, HeaderDup;
    var n, mylen := DecodeBuf(mem, 1);
    var curdata := 1 + n;
    if mylen < 2 {
      return AckIn(n, HeaderType(mem[0]), HeaderDup(mem[0]), None);
    }
    a := AckIn(1, HeaderType(mem[0]), HeaderDup(mem[0]), Some(ReadU16(mem[curdata..curdata + mylen])));
  }

  function ParseAck(mem: bytes): AckIn
    requires Framed(mem, 0)
  {
    if |Body(mem)| < 2 then AckIn(DecodeLen(mem[1..]).len, HeaderType(mem[0]), HeaderDup(mem[0]), None)
    else AckIn(1, HeaderType(mem[0]), HeaderDup(mem[0]), Some(ReadU16(Body(mem))))
  }

  lemma AckRoundTrip(kind: nat, dup: nat, id: nat, rest: bytes)
    requires kind < 16 && dup < 2 && id < 65536
    ensures Framed(AckPacket(kind, dup, id) + rest, 0)
    ensures ParseAck(AckPacket(kind, dup, id) + rest) == AckIn(1, kind, dup, Some(id))
  {
    hide EncodeLen, DecodeLen, U16, HeaderByte, HeaderType, HeaderDup;
    var q := if kind == PUBREL then 1 else 0;
    PacketFramed(HeaderByte(kind, dup, q, 0), U16(id), rest);
    HeaderRoundTrip(kind, dup, q, 0);
    U16RoundTrip(id, []);
    assert U16(id) + [] == U16(id);
  }
}
