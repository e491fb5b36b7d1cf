/**
The blocking client, MQTT::Client of MQTTClient.h, with QoS 1 and QoS 2 enabled: reading and writing
packets, dispatching them, the QoS 2 receive table, the single in-flight publish kept across
reconnects, and the message handlers. The network, the timers and uninitialised memory are those of
an arbitrary Socket. The client's log says what happened; its fields are what the log comes to.
*/
module ClientSession {
  import opened Basics
  import opened Wire
  import opened Publish
  import C = Connect
  import Subscriptions
  import ClientMatcher
  import PacketReader
  import opened Network
  import opened SessionLog
  import opened SessionRuns
  import WireImage
  import Q = Qos2Receiver

  const PINGRESP := 13

  class Client {
    const max: nat
    const places: nat          // MAX_MESSAGE_HANDLERS
    const signedChar: bool     // whether char is signed
    const net: Socket
    const sendbuf: array<byte>
    const readbuf: array<byte>
    const pubbuf: array<byte>
    const incoming: array<nat>
    var keepAliveInterval: nat
    var pingOutstanding: bool
    var cleansession: bool
    var isconnected: bool
    var nextId: nat
    var handlers: seq<Option<Handler>>
    var defaultHandler: Option<nat>
    var inflightLen: nat
    var inflightMsgid: nat
    var inflightQoS: nat
    var pubrel: bool
    var calls: seq<Call>       // callbacks made so far
    ghost var log: Log
    ghost const rx0: bytes     // what the network had to give, and had been given, at the beginning
    ghost const tx0: bytes
    ghost const smooth0: bool  // and whether it is faultless

    ghost predicate Buffers() {
      && 5 <= max <= MAX_REMAINING && incoming.Length == QOS2_PLACES
      && sendbuf.Length == max && readbuf.Length == max && pubbuf.Length == max
      && sendbuf != readbuf && sendbuf != pubbuf && readbuf != pubbuf
    }

    ghost function Now(): Session
      reads this`log
    {
      Replay(places, log)
    }

    // Receive table, handlers and callbacks are those of the log.
    ghost predicate Mirrors(s: Session)
      reads this`handlers, this`defaultHandler, this`calls, incoming
    {
      incoming[..] == s.recv.table && handlers == s.handlers && defaultHandler == s.default && calls == s.calls
    }

    // A non-zero in-flight identifier means that pubbuf holds the stored publish, with that
    // identifier and QoS.
    ghost predicate Holds(slot: Option<Outgoing>)
      reads this`inflightMsgid, this`inflightQoS, this`inflightLen, pubbuf
    {
      && (inflightMsgid > 0 <==> slot.Some?)
      && (slot.Some? ==>
            && slot.value.id == inflightMsgid < 65536 && slot.value.qos == inflightQoS < 3
            && 0 < inflightLen <= pubbuf.Length && pubbuf[..inflightLen] == OutgoingPacket(slot.value))
    }

    // The bytes on the wire, in both directions, are those of the log.
    ghost predicate Flows()
      reads this`log, net`rx, net`tx
    {
      net.tx == tx0 + Sent(log) && rx0 == Received(log) + net.rx
    }

    // A faultless network is read packet by packet.
    ghost predicate Orderly()
      reads this`log, net`rsched
    {
      smooth0 ==> net.Smooth() && AllFront(rx0, log, max)
    }

    ghost predicate Valid()
      reads this, incoming, pubbuf, net`rx, net`tx, net`rsched
    {
      && Buffers() && AllGenuine(places, log) && Mirrors(Now()) && Holds(Now().slot) && Flows() && Orderly()
      && nextId < 65536 && !pubrel
    }

    ghost function Here(): State
      reads this`log, this`isconnected, this`cleansession, this`nextId, net`rx, net`rsched, net`wsched, net`ticks
    {
      State(log, isconnected, cleansession, nextId, net.rx, net.Smooth() && net.Eager(), net.Patience())
    }

    // All but the log agrees with e having happened.
    ghost predicate Pending(e: Happening)
      reads this`log, this`handlers, this`defaultHandler, this`calls, incoming, net`rx, net`tx, net`rsched
    {
      && Genuine(e, places, log) && Mirrors(Apply(Now(), e))
      && net.tx == tx0 + Sent(log) + Out(e) && rx0 == Received(log) + In(e) + net.rx
      && (smooth0 ==> net.Smooth() && AllFront(rx0, log, max) && ReadsFront(e, rx0[|Received(log)|..], max))
    }

    // h is entered in the log.
    ghost method Note(h: Happening)
      requires AllGenuine(places, log) && Pending(h) && Holds(Apply(Now(), h).slot)
      modifies this`log
      ensures log == old(log) + [h] && AllGenuine(places, log) && Mirrors(Now()) && Holds(Now().slot) && Flows()
      ensures Orderly()
      ensures Now() == Apply(old(Now()), h)
    {
      hide Replay, AllGenuine, Genuine, Apply, Sent, Received, Out, In, AllFront, ReadsFront;
      Snoc(places, log, h);
      FrontSnoc(rx0, log, h, max);
      Regroup(tx0, Sent(log), Out(h));
      log := log + [h];
    }

    // The keep-alive interval is not initialised.
    constructor (network: Socket, size: nat, handlerPlaces: nat, signed: bool, uninitialised: nat)
      requires 5 <= size <= MAX_REMAINING
      ensures Valid() && net == network && max == size && places == handlerPlaces && signedChar == signed
      ensures rx0 == net.rx && tx0 == net.tx && smooth0 == net.Smooth() && incoming.Length == 10
      ensures Here() == State([], false, true, 0, net.rx, net.Smooth() && net.Eager(), net.Patience())
      ensures fresh(sendbuf) && fresh(readbuf) && fresh(pubbuf) && fresh(incoming)
    {
      max, places, signedChar, net := size, handlerPlaces, signed, network;
      sendbuf := new byte[size];
      readbuf := new byte[size];
      pubbuf := new byte[size];
      incoming := new nat[QOS2_PLACES](_ => 0);
      keepAliveInterval, pingOutstanding, cleansession, isconnected := uninitialised, false, true, false;
      nextId, handlers, defaultHandler := 0, seq(handlerPlaces, _ => None), None;
      inflightLen, inflightMsgid, inflightQoS, pubrel := 0, 0, 0, false;
      calls, log, rx0, tx0, smooth0 := [], [], network.rx, network.tx, network.Smooth();
      new;
      assert incoming[..] == Q.Fresh(QOS2_PLACES).table;
      assert tx0 + [] == tx0;
    }

    // ---------- the QoS 2 table ----------

    method IsQoS2msgidFree(id: nat) returns (free: bool)
      ensures free <==> id !in incoming[..]
    {
      for i := 0 to incoming.Length
        invariant id !in incoming[..i]
      {
        if incoming[i] == id {
          return false;
        }
      }
      assert incoming[..incoming.Length] == incoming[..];
      free := true;
    }

    method UseQoS2msgid(id: nat) returns (used: bool)
      modifies incoming
      ensures used <==> 0 in old(incoming[..])
      ensures incoming[..] == if used then Q.Use(old(incoming[..]), id) else old(incoming[..])
    {
      for i := 0 to incoming.Length
        invariant incoming[..] == old(incoming[..]) && 0 !in incoming[..i]
      {
        if incoming[i] == 0 {
          FirstPlace(incoming[..], 0, i);
          incoming[i] := id;
          return true;
        }
      }
      assert incoming[..incoming.Length] == incoming[..];
      used := false;
    }

    method FreeQoS2msgid(id: nat)
      modifies incoming
      ensures incoming[..] == Q.Free(old(incoming[..]), id)
    {
      for i := 0 to incoming.Length
        invariant incoming[..] == old(incoming[..]) && id !in incoming[..i]
      {
        if incoming[i] == id {
          FirstPlace(incoming[..], id, i);
          incoming[i] := 0;
          return;
        }
      }
      assert incoming[..incoming.Length] == incoming[..];
    }

    // ---------- sending and receiving ----------

    method SendPacket(length: nat) returns (rc: int, ghost a: Attempt)
      requires Buffers() && length <= max
      modifies net`tx, net`wsched, net`ticks
      ensures a.packet == sendbuf[..length] && Possible(a) && net.tx == old(net.tx) + Bytes(a)
      ensures rc == if Full(a) then SUCCESS else FAILURE
      ensures net.Kept() && (old(net.wsched) == [] ==> Full(a))
      ensures old(net.Eager()) ==> net.Patience() + length >= old(net.Patience())
      ensures old(net.Eager()) && length <= old(net.Patience()) + 1 ==> Full(a)
    {
      hide Bytes;
      var done := 0;
      assert old(net.tx) + sendbuf[..0] == old(net.tx);
      while done < length
        invariant 0 <= done <= length && net.tx == old(net.tx) + sendbuf[..][..done]
        invariant net.Kept()
        invariant old(net.Eager()) ==> net.Patience() + done >= old(net.Patience())
        decreases |net.ticks|
      {
        var n := net.WriteSome(sendbuf[..][done..length]);
        if n < 0 {
          break;
        }
        MoreSent(old(net.tx), sendbuf[..], done, n, length);
        done := done + n;
        var expired := net.Expired();
        if expired {
          break;
        }
      }
      a := Attempt(sendbuf[..length], done);
      BytesSent(sendbuf[..], length, done);
      rc := if done == length then SUCCESS else FAILURE;
    }

    // sendPacket on behalf of an API call.
    method SendRequest(length: nat) returns (rc: int, ghost a: Attempt)
      requires Valid() && length <= max
      modifies net`tx, net`wsched, net`ticks, this`log
      ensures Valid() && log == old(log) + [Requested(a)]
      ensures a.packet == sendbuf[..length] && rc == if Full(a) then SUCCESS else FAILURE
      ensures net.Kept() && (old(net.wsched) == [] ==> Full(a))
      ensures old(net.Eager()) ==> net.Patience() + length >= old(net.Patience())
      ensures old(net.Eager()) && length <= old(net.Patience()) + 1 ==> Full(a)
    {
      hide Replay, AllGenuine, Sent, Received;
      rc, a := SendPacket(length);
      NothingRead(log);
      Note(Requested(a));
    }

    // decodePacket: its value is used whatever the outcome.
    method DecodePacket() returns (value: nat, ghost field: bytes)
      modifies net`rx, net`rsched
      ensures field + net.rx == old(net.rx) && |field| <= 4
      ensures DecodeLen(field).value == value <= MAX_REMAINING && DecodeLen(field).used == |field|
      ensures old(net.Smooth()) ==>
                && net.Smooth() && value == DecodeLen(old(net.rx)).value && |field| == DecodeLen(old(net.rx)).used
    {
      hide Digit, DecodeFrom, DecodeLen;
      ghost var s, smooth := net.rx, net.Smooth();
      value := 0;
      var c := new byte[1];
      var len: nat, multiplier: nat, more := 0, 1, true;
      field := [];
      NoField();
      while more
        invariant len <= 4 && multiplier == Scale(len) && value < multiplier && |field| <= len && field + net.rx == s
        invariant more ==> |field| == len && Continues(field) && DecodeLen(field) == Decoded(len + 1, value, len)
        invariant !more ==> DecodeLen(field).value == value && DecodeLen(field).used == |field|
        invariant smooth ==> net.Smooth()
        invariant !more ==> FieldEnds(field) || (smooth ==> net.rx == [])
        decreases more, 4 - len
      {
        if len >= 4 {
          more := false;
        } else {
          ghost var rest := net.rx;
          var rc, taken := net.Read(c, 0, 1);
          if rc != 1 {
            more := false;
            assert taken == [] && net.rx == rest;
          } else {
            assert taken == [c[0]] by { assert c[..][..1] == taken; }
            DigitBound(c[0], value, len);
            FieldGrows(field, c[0], value);
            Regroup(field, taken, net.rx);
            field := field + [c[0]];
            len := len + 1;
            value := value + Digit(c[0], multiplier);
            multiplier := multiplier * 128;
            more := c[0] >= 128;
          }
        }
      }
      if smooth {
        FrontField(field, net.rx);
      }
    }

    // Header byte and length field, the length put back into the buffer in its shortest form.
    method ReadFront() returns (ok: bool, remLen: nat, len: nat, ghost raw: bytes)
      requires Buffers()
      modifies net`rx, net`rsched, readbuf
      ensures raw + net.rx == old(net.rx)
      ensures ok ==>
                && 1 <= |raw| <= 5 && remLen <= MAX_REMAINING && len == 1 + |EncodeLen(remLen)| <= max
                && DecodeLen(raw[1..]).value == remLen && DecodeLen(raw[1..]).used == |raw| - 1
                && readbuf[..] == Write(old(readbuf[..]), 0, [raw[0]] + EncodeLen(remLen))
      ensures old(net.Smooth()) ==> net.Smooth()
      ensures old(net.Smooth()) && PacketReader.Complete(old(net.rx)) ==>
                ok && remLen == DecodeLen(old(net.rx)[1..]).value && |raw| == 1 + DecodeLen(old(net.rx)[1..]).used
    {
      hide DecodeLen, EncodeLen, HeaderType, Write, DecodeFrom;
      ghost var s, b0 := net.rx, readbuf[..];
      ok, remLen, len := false, 0, 0;
      var n;
      n, raw := net.Read(readbuf, 0, 1);
      if n != 1 {
        return;
      }
      ok := true;
      ghost var taken, field := raw, [];
      assert s == taken + net.rx && net.rx == s[1..];
      remLen, field := DecodePacket();
      assert taken + (field + net.rx) == taken + field + net.rx;
      raw := taken + field;
      assert raw[1..] == field && [raw[0]] == taken;
      EncodeLenSize(remLen);
      var k := Encode(readbuf, 1, remLen);
      len := 1 + k;
      WriteThen(b0, 0, taken, EncodeLen(remLen));
    }

    // The packet type, 0 when nothing came, or an error. A positive result leaves a framed packet
    // in the read buffer; on a faultless network it is the packet that the stream starts with.
    method ReadPacket() returns (rc: int, ghost raw: bytes)
      requires Buffers()
      modifies net`rx, net`rsched, readbuf
      ensures BUFFER_OVERFLOW <= rc < 16 && raw + net.rx == old(net.rx) && (raw == [] ==> rc == 0)
      ensures rc > 0 ==> Framed(readbuf[..], 0) && exists k :: 0 <= k <= 4 && ReadsWith(raw, rc, readbuf[..], k)
      ensures old(net.Smooth()) ==> net.Smooth() && TakesFront(raw, rc, readbuf[..], old(net.rx), max)
    {
      hide DecodeLen, EncodeLen, HeaderType, Write, ReadsWith;
      ghost var s, b0 := net.rx, readbuf[..];
      ghost var nice := net.Smooth() && PacketReader.Complete(s);
      var ok, remLen, len;
      ok, remLen, len, raw := ReadFront();
      if !ok {
        return 0, raw;
      }
      ghost var front := [raw[0]] + EncodeLen(remLen);
      TakenOff(raw, net.rx, s);
      if remLen > max - len {
        WrittenPrefix(b0, front);
        return BUFFER_OVERFLOW, raw;
      }
      ghost var head, rest, body := raw, net.rx, [];
      if remLen > 0 {
        var n;
        n, body := net.Read(readbuf, len, remLen);
        raw := head + body;
        assert head + (body + net.rx) == head + body + net.rx;
        if n != remLen {
          return FAILURE, raw;
        }
        TakenOff(raw, net.rx, s);
      } else {
        WriteNothing(readbuf[..], len);
        assert raw == head + body;
      }
      WriteThen(b0, 0, front, body);
      assert front + body == Packet(head[0], body);
      ReadBufferFramed(b0, head[0], body);
      rc := HeaderType(readbuf[0]);
      ReadsItself(head, body, readbuf[..]);
      assert nice ==> body == s[|head|..|head| + |body|] by { assert s == head + body + net.rx; }
    }

    // ---------- sessions ----------

    method ClearTable()
      requires incoming.Length == QOS2_PLACES
      modifies incoming
      ensures incoming[..] == Q.Fresh(QOS2_PLACES).table && forall i :: 0 <= i < incoming.Length ==> incoming[i] == 0
    {
      for i := 0 to incoming.Length
        invariant forall j :: 0 <= j < i ==> incoming[j] == 0
      {
        incoming[i] := 0;
      }
    }

    method CleanSession()
      requires Valid()
      modifies incoming, this`handlers, this`inflightMsgid, this`inflightQoS, this`pubrel, this`log
      ensures Valid() && log == old(log) + [Cleaned] && inflightMsgid == 0 && inflightQoS == 0
      ensures |handlers| == old(|handlers|) && forall i :: 0 <= i < |handlers| ==> handlers[i] == None
      ensures forall i :: 0 <= i < incoming.Length ==> incoming[i] == 0
    {
      hide Replay, AllGenuine, Sent, Received;
      handlers := seq(|handlers|, _ => None);
      inflightMsgid, inflightQoS, pubrel := 0, 0, false;
      ClearTable();
      NothingRead(log);
      Note(Cleaned);
    }

    method CloseSession()
      requires Valid()
      modifies incoming, this`handlers, this`inflightMsgid, this`inflightQoS, this`pubrel, this`log
      modifies this`isconnected, this`pingOutstanding
      ensures Valid() && !isconnected && !pingOutstanding && log == old(log) + Cleaning(cleansession)
      ensures cleansession ==>
                && (forall i :: 0 <= i < |handlers| ==> handlers[i] == None) && inflightMsgid == 0
                && (forall i :: 0 <= i < incoming.Length ==> incoming[i] == 0)
    {
      hide Replay, AllGenuine;
      pingOutstanding, isconnected := false, false;
      if cleansession {
        CleanSession();
      }
    }

    // ---------- handling one packet ----------

    method DeliverMessage(m: Message) returns (rc: int)
      modifies this`calls
      ensures calls == old(calls) + Dispatched(handlers, defaultHandler, m)
      ensures rc == if Dispatched(handlers, defaultHandler, m) == [] then FAILURE else SUCCESS
    {
      hide ClientMatcher.Cursor, Chars;
      rc := FAILURE;
      var topic := Chars(m.topic);
      ghost var made: seq<Call> := [];
      assert handlers[..0] == [];
      for i := 0 to |handlers|
        invariant made == Selected(handlers[..i], m)
        invariant calls == old(calls) + made && rc == if made == [] then FAILURE else SUCCESS
      {
        assert handlers[..i + 1][..i] == handlers[..i];
        if handlers[i].Some? {
          var h := handlers[i].value;
          var matched := ClientMatcher.IsTopicMatched(h.filter, topic);
          if topic == h.filter || matched {
            calls := calls + [Call(h.callback, m)];
            made := made + [Call(h.callback, m)];
            rc := SUCCESS;
          }
        }
      }
      assert handlers[..|handlers|] == handlers;
      if rc == FAILURE && defaultHandler.Some? {
        calls := calls + [Call(defaultHandler.value, m)];
        rc := SUCCESS;
      }
    }

    // Answers with the given packet type and identifier.
    method SendAck(kind: nat, id: nat) returns (rc: int, ghost a: Attempt)
      requires Buffers()
      modifies net`tx, net`wsched, net`ticks, sendbuf
      ensures a.packet == AckPacket(kind, 0, id) && Possible(a) && net.tx == old(net.tx) + Bytes(a)
      ensures old(net.Eager()) && old(net.Patience()) >= 3 ==> Full(a)
      ensures rc == if Full(a) then SUCCESS else FAILURE
      ensures net.Kept()
    {
      hide AckPacket, Write;
      var len := SerializeAck(sendbuf, max, kind, 0, id);
      WrittenPrefix(old(sendbuf[..]), AckPacket(kind, 0, id));
      rc, a := SendPacket(4);
    }

    // The message reaches the application, for QoS 2 only if its identifier was not in the table
    // and there is room for it.
    method Receive(p: PublishIn)
      requires Buffers() && Mirrors(Now()) && p.PublishIn?
      modifies incoming, this`calls
      ensures incoming[..] == Stepped(Now().recv, if p.qos == 2 then Some(Q.Publish(p.id)) else None).table
      ensures calls == Now().calls + CallsFor(Now(), Deliveries(Now().recv.table, p))
    {
      hide Dispatched, Q.Use, Replay;
      var m := MessageOf(p);
      if m.qos != 2 {
        var _ := DeliverMessage(m);
      } else {
        var free := IsQoS2msgidFree(m.id);
        if free {
          var used := UseQoS2msgid(m.id);
          if used {
            var _ := DeliverMessage(m);
          }
        }
      }
    }

    // The packet raw has just been read, and nothing was done about it yet.
    ghost predicate Arrived(raw: bytes, kind: int, mem: bytes)
      reads this`log, this`handlers, this`defaultHandler, this`calls, incoming, net`rx, net`tx, net`rsched
    {
      && (kind > 0 ==> ReadsAs(raw, kind, mem)) && Mirrors(Now())
      && net.tx == tx0 + Sent(log) && rx0 == Received(log) + raw + net.rx
      && (smooth0 ==>
            net.Smooth() && AllFront(rx0, log, max) && TakesFront(raw, kind, mem, rx0[|Received(log)|..], max))
    }

    // PUBLISH.
    method HandlePublish(mem: bytes, ghost raw: bytes, ghost stray: nat) returns (rc: int, ghost reply: Option<Attempt>)
      requires Buffers() && Arrived(raw, PUBLISH, mem)
      modifies net`tx, net`wsched, net`ticks, sendbuf, incoming, this`calls
      ensures Pending(Read(raw, PUBLISH, mem, stray, reply))
      ensures reply.Some? && old(net.Eager()) && old(net.Patience()) >= 3 ==> Full(reply.value)
      ensures net.Kept() && (rc == SUCCESS || rc == FAILURE)
    {
      hide Replay, ParsePublish, AckPacket, Framed, ReadsWith, Q.Step, CallsFor, Deliveries, Sent, Received;
      reply := None;
      var n, p := DeserializePublish(mem);
      if n != 1 {
        NoDelivery(Now(), PublishBad);
        return FAILURE, None;
      }
      Receive(p);
      rc := SUCCESS;
      ghost var a;
      if p.qos == 1 {
        rc, a := SendAck(PUBACK, p.id);
        reply := Some(a);
      } else if p.qos == 2 {
        rc, a := SendAck(PUBREC, p.id);
        reply := Some(a);
      } else if p.qos != 0 {
        rc := FAILURE;
      }
    }

    // PUBREC is answered with PUBREL, PUBREL with PUBCOMP; an answered PUBREL frees its
    // identifier. A packet too short for an identifier leaves it uninitialised.
    method HandleRelease(kind: nat, mem: bytes, uninitialised: nat, ghost raw: bytes)
      returns (rc: int, ghost reply: Option<Attempt>)
      requires Buffers() && (kind == PUBREC || kind == PUBREL) && Arrived(raw, kind, mem)
      modifies net`tx, net`wsched, net`ticks, sendbuf, incoming
      ensures Pending(Read(raw, kind, mem, uninitialised, reply))
      ensures reply.Some? && old(net.Eager()) && old(net.Patience()) >= 3 ==> Full(reply.value)
      ensures net.Kept() && (rc == SUCCESS || rc == FAILURE)
      ensures rc == SUCCESS <==> reply.Some? && Full(reply.value)
    {
      hide Replay, AckPacket, Framed, ParseAck, ReadsWith, Q.Free, CallsFor, Sent, Received;
      NoDelivery(Now(), PublishBad);
      FramedShorter(mem);
      reply := None;
      var a := DeserializeAck(mem);
      if a.rc != 1 {
        return FAILURE, None;
      }
      var id := uninitialised;
      if a.id.Some? {
        id := a.id.value;
      }
      ghost var sent;
      rc, sent := SendAck(if kind == PUBREC then PUBREL else PUBCOMP, id);
      reply := Some(sent);
      if rc == SUCCESS && kind == PUBREL {
        FreeQoS2msgid(id);
      }
    }

    method SendPing() returns (rc: int, ghost ping: Log)
      requires Valid()
      modifies net`tx, net`wsched, net`ticks, sendbuf, this`log
      ensures Valid() && net.Kept() && (rc == SUCCESS || rc == FAILURE)
      ensures log == old(log) + ping && |ping| == 1 && ping[0].Pinged?
    {
      hide Write, HeaderByte, Replay, AllGenuine, Sent, Received;
      var len := WriteHeader(sendbuf, HeaderByte(PINGREQ, 0, 0, 0), 0);
      EmptyPacket(HeaderByte(PINGREQ, 0, 0, 0));
      WrittenPrefix(old(sendbuf[..]), PingPacket());
      ghost var a;
      rc, a := SendPacket(2);
      NothingRead(log);
      Note(Pinged(a));
      ping := [Pinged(a)];
    }

    method Keepalive() returns (rc: int, ghost ping: Log)
      requires Valid()
      modifies net`tx, net`wsched, net`ticks, sendbuf, this`log, this`pingOutstanding
      ensures Valid() && net.Kept() && (rc == SUCCESS || rc == FAILURE)
      ensures log == old(log) + ping && |ping| <= 1 && (ping != [] ==> ping[0].Pinged?)
      ensures keepAliveInterval == 0 || old(pingOutstanding) ==> ping == [] && pingOutstanding == old(pingOutstanding)
      ensures keepAliveInterval == 0 ==> rc == SUCCESS
      ensures pingOutstanding <==> old(pingOutstanding) || (rc == SUCCESS && ping != [])
      ensures ping != [] <==> keepAliveInterval > 0 && !old(pingOutstanding) && old(net.Patience()) <= 1
      ensures keepAliveInterval > 0 && old(pingOutstanding) ==> (rc == FAILURE <==> old(net.Patience()) == 0)
      ensures keepAliveInterval == 0 || old(net.Patience()) >= 2 ==>
                rc == SUCCESS && ping == [] && net.Patience() + 2 >= old(net.Patience())
    {
      hide Replay, AllGenuine, Sent, Received, Mirrors, Holds, Flows;
      rc, ping := SUCCESS, [];
      if keepAliveInterval == 0 {
        return;
      }
      var due := net.Expired();
      if pingOutstanding {
        if due {
          rc := FAILURE;
        }
      } else {
        if !due {
          due := net.Expired();
        }
        if due {
          rc, ping := SendPing();
          if rc == SUCCESS {
            pingOutstanding := true;
          }
        }
      }
    }

    // What the packet in the read buffer calls for. Two bytes behind the buffer may be taken for a
    // packet identifier.
    method HandlePacket(kind: int, ghost raw: bytes) returns (rc: int, goesOn: bool, ghost e: Happening)
      requires Buffers() && BUFFER_OVERFLOW <= kind < 16 && Mirrors(Now())
      requires kind > 0 ==> Framed(readbuf[..], 0) && exists k :: 0 <= k <= 4 && ReadsWith(raw, kind, readbuf[..], k)
      requires net.tx == tx0 + Sent(log) && rx0 == Received(log) + raw + net.rx
      requires smooth0 ==>
                 && net.Smooth() && AllFront(rx0, log, max)
                 && TakesFront(raw, kind, readbuf[..], rx0[|Received(log)|..], max)
      modifies net`tx, net`wsched, net`ticks, net`stray, sendbuf, incoming, this`calls, this`pingOutstanding
      ensures Pending(e) && e.Read? && e.raw == raw && e.kind == kind && |e.mem| == max + 2
      ensures e.mem[..max] == readbuf[..]
      ensures net.Kept()
      ensures e.reply.Some? && old(net.Eager()) && old(net.Patience()) >= 3 ==> Full(e.reply.value)
      ensures goesOn ==> rc == SUCCESS && kind >= 0
      ensures !goesOn ==> rc == FAILURE || rc == kind != SUCCESS
      ensures Calm(kind) ==> goesOn && net.ticks == old(net.ticks)
      ensures pingOutstanding == (old(pingOutstanding) && kind != 13)
    {
      hide Replay, Framed, ReadsWith, Q.Step, Sent, Received, Dispatched, ParsePublish, AckPacket, ParseAck, AllFront,
           TakesFront;
      rc, goesOn := SUCCESS, true;
      var behind := net.Stray();
      var uninitialised := net.Stray();
      var mem := readbuf[..] + U16(behind);
      ghost var reply: Option<Attempt> := None;
      if kind > 0 {
        Behind(raw, kind, readbuf[..], U16(behind));
      }
      if smooth0 {
        FrontBehind(raw, kind, readbuf[..], U16(behind), rx0[|Received(log)|..], max);
      }
      NoDelivery(Now(), PublishBad);
      if kind == PUBLISH {
        rc, reply := HandlePublish(mem, raw, uninitialised);
        goesOn := rc == SUCCESS;
      } else if kind == PUBREC || kind == PUBREL {
        rc, reply := HandleRelease(kind, mem, uninitialised, raw);
        goesOn := rc == SUCCESS;
      } else if kind == PINGRESP {
        pingOutstanding := false;
      } else if !(kind in [0, CONNACK, PUBACK, SUBACK, UNSUBACK, PUBCOMP]) {
        rc, goesOn := kind, false;
      }
      e := Read(raw, kind, mem, uninitialised, reply);
    }

    // One packet read and handled, and the keep-alive check after it.
    method Work() returns (rc: int, packetType: int, ghost e: Happening, ghost ping: Log)
      requires Valid()
      modifies net, sendbuf, readbuf, incoming, this`log, this`calls, this`pingOutstanding
      ensures Valid() && net.Kept()
      ensures rc == SUCCESS || rc == FAILURE || rc == packetType
      ensures e.Read? && e.kind == packetType && |e.mem| == max + 2 && e.mem[..max] == readbuf[..]
      ensures packetType > 0 ==> Framed(readbuf[..], 0)
      ensures e.raw + net.rx == old(net.rx) && (old(net.Smooth()) ==> ReadsFront(e, old(net.rx), max))
      ensures e.reply.Some? && old(net.Eager()) && old(net.Patience()) >= 3 ==> Full(e.reply.value)
      ensures Calm(packetType) && (keepAliveInterval == 0 || old(net.Patience()) >= 2) ==>
                && rc == SUCCESS && ping == [] && net.Patience() + 2 >= old(net.Patience())
                && pingOutstanding == (old(pingOutstanding) && packetType != 13)
      ensures e.raw == [] ==> packetType == 0
      ensures log == old(log) + [e] + ping && |ping| <= 1 && (ping != [] ==> ping[0].Pinged?)
    {
      hide Socket.Smooth, Socket.Eager, Socket.Patience, Replay, AllGenuine, Genuine, Framed, ReadsWith, Sent,
           Received, Apply, AllFront, TakesFront;
      TakenOff(Received(log), net.rx, rx0);
      ghost var raw;
      packetType, raw := ReadPacket();
      Regroup(Received(log), raw, net.rx);
      var goesOn;
      rc, goesOn, e := HandlePacket(packetType, raw);
      assert e.mem == readbuf[..] + e.mem[max..];
      if old(net.Smooth()) {
        FrontBehind(raw, packetType, readbuf[..], e.mem[max..], old(net.rx), max);
      }
      ApplyRecv(Now(), e);
      Note(e);
      ping := [];
      if goesOn {
        var alive;
        alive, ping := Keepalive();
        if alive != SUCCESS {
          rc := FAILURE;
        }
      }
    }

    // One pass: a packet is read and handled; a failure ends the session.
    method Cycle() returns (rc: int, ghost e: Happening)
      requires Valid()
      modifies net, sendbuf, readbuf, incoming, this`log, this`calls, this`pingOutstanding
      modifies this`handlers, this`inflightMsgid, this`inflightQoS, this`pubrel, this`isconnected
      ensures Valid() && net.Kept() && Waited(old(Here()), Here())
      ensures old(log) + [e] <= log && e.Read? && LastRead(log[|old(log)|..]) == Some(e)
      ensures Silent(log[|old(log)| + 1..]) && |e.mem| == max + 2
      ensures e.reply.Some? && old(net.Eager()) && old(net.Patience()) >= 3 ==> Full(e.reply.value)
      ensures rc > 0 ==> InBuffer(Some(e), rc)
      ensures e.raw + net.rx == old(net.rx) && (old(net.Smooth()) ==> ReadsFront(e, old(net.rx), max))
      ensures Calm(e.kind) && (keepAliveInterval == 0 || old(net.Patience()) >= 2) ==>
                && rc == e.kind && log == old(log) + [e] && isconnected == old(isconnected)
                && net.Patience() + 2 >= old(net.Patience())
                && pingOutstanding == (old(pingOutstanding) && e.kind != 13)
      ensures e.raw == [] ==> e.kind == 0
    {
      hide Socket.Smooth, Socket.Eager, Socket.Patience, Replay, AllGenuine, Framed, Sent, Received, LastRead, Mirrors,
           Holds, Flows, Waited, Orderly, ReadsFront;
      var packetType;
      ghost var s, tail := Here(), [];
      rc, packetType, e, tail := Work();
      if rc == SUCCESS {
        rc := packetType;
      } else if isconnected {
        CloseSession();
        Regrouped(s.log + [e], tail, Cleaning(cleansession));
        tail := tail + Cleaning(cleansession);
      }
      OnePass(s, Here(), e, tail);
      assert log[|s.log| + 1..] == tail;
    }

    // r is the packet in the read buffer, of that kind.
    ghost predicate InBuffer(r: Option<Happening>, kind: int)
      reads readbuf
    {
      && r.Some? && r.value.Read? && r.value.kind == kind
      && |r.value.mem| == readbuf.Length + 2 && r.value.mem[..readbuf.Length] == readbuf[..] && Framed(readbuf[..], 0)
    }

    // The packet at hand was read, and nothing else happened.
    twostate predicate Found()
      reads this, net
    {
      && |log| == |old(log)| + 1 && old(log) <= log && log[|old(log)|].Read?
      && ReadsFront(log[|old(log)|], old(net.rx), max)
      && log[|old(log)|].raw + net.rx == old(net.rx) && isconnected == old(isconnected)
      && net.Patience() + 3 >= old(net.Patience())
    }

    method WaitFor(kind: nat) returns (rc: int)
      requires Valid() && kind > 0
      modifies net, sendbuf, readbuf, incoming, this`log, this`calls, this`pingOutstanding
      modifies this`handlers, this`inflightMsgid, this`inflightQoS, this`pubrel, this`isconnected
      ensures Valid() && net.Kept() && Waited(old(Here()), Here())
      ensures rc > 0 ==> InBuffer(LastRead(log[|old(log)|..]), rc)
      ensures Benign(kind) && old(net.Smooth()) && old(net.Patience()) >= 3 && AtHand(old(net.rx), kind, max) ==>
                rc == kind && Found()
    {
      hide Socket.Smooth, Socket.Eager, Socket.Patience, Replay, AllGenuine, Framed, Sent, Received, LastRead, Mirrors,
           Holds, Flows, Waited, InBuffer, Orderly, AtHand, ReadsFront;
      ghost var ready := Benign(kind) && net.Smooth() && net.Patience() >= 3 && AtHand(net.rx, kind, max);
      rc := FAILURE;
      var again := true;
      WaitedNot(Here());
      while again
        invariant Valid() && net.Kept() && Waited(old(Here()), Here()) && old(log) <= log
        invariant rc > 0 ==> InBuffer(LastRead(log[|old(log)|..]), rc)
        invariant ready && again ==> log == old(log) && net.rx == old(net.rx) && isconnected == old(isconnected)
        invariant ready && again ==> net.ticks == old(net.ticks)
        invariant ready && !again ==> rc == kind && Found()
        decreases again, |net.ticks|
      {
        ghost var t, e := Here(), Cleaned;
        var expired := net.Expired();
        WaitedStill(old(Here()), t, Here());
        if expired {
          break;
        }
        t := Here();
        rc, e := Cycle();
        if ready {
          FrontKind(e, t.rx, kind, max);
        }
        WaitedMore(old(Here()), t, Here());
        again := rc != kind && rc >= 0;
      }
    }

    method Yield() returns (rc: int)
      requires Valid()
      modifies net, sendbuf, readbuf, incoming, this`log, this`calls, this`pingOutstanding
      modifies this`handlers, this`inflightMsgid, this`inflightQoS, this`pubrel, this`isconnected
      ensures Valid() && net.Kept() && Yielded(old(Here()), Here(), rc, max)
      ensures old(net.rx) == [] && keepAliveInterval == 0 ==> rc == SUCCESS && isconnected == old(isconnected)
    {
      hide Replay, AllGenuine, Framed, Sent, Received, LastRead, Mirrors, Holds, Flows, InBuffer, Orderly, ReadsFront;
      rc := SUCCESS;
      WaitedNot(Here());
      ghost var s := Here();
      var expired := net.Expired();
      while !expired
        invariant Valid() && net.Kept() && Waited(s, Here())
        invariant s.rx == [] && keepAliveInterval == 0 ==> net.rx == [] && isconnected == s.connected
        invariant log == s.log ==> net.rx == s.rx && (s.calm ==> net.Smooth()) && (s.patience > 0 ==> !expired)
        invariant log != s.log ==>
                    |log| > |s.log| && log[|s.log|].Read? && (s.calm ==> ReadsFront(log[|s.log|], s.rx, max))
        decreases !expired, |net.ticks|
      {
        ghost var t, e := Here(), Cleaned;
        var n;
        n, e := Cycle();
        WaitedMore(s, t, Here());
        if n < 0 {
          return FAILURE;
        }
        expired := net.Expired();
      }
    }

    // ---------- publishing ----------

    // The identifier in the acknowledgement that has just arrived.
    method ReadAckId() returns (ok: bool, id: nat, ghost u: nat)
      requires Framed(readbuf[..], 0)
      modifies net`stray
      ensures ok <==> AckId(readbuf[..], u).Some?
      ensures ok ==> AckId(readbuf[..], u) == Some(id)
    {
      hide Framed, ParseAck;
      var a := DeserializeAck(readbuf[..]);
      ok := a.rc == 1;
      id := net.Stray();
      u := id;
      if a.id.Some? {
        id := a.id.value;
      }
    }

    // The stored publish has been acknowledged.
    method Settle(ghost u: nat)
      requires Valid() && LastRead(log).Some? && AckId(LastRead(log).value.mem, u) == Some(inflightMsgid)
      requires LastRead(log).value.kind == PUBACK || LastRead(log).value.kind == PUBCOMP
      modifies this`inflightMsgid, this`log
      ensures Valid() && inflightMsgid == 0
      ensures log == old(log) || log == old(log) + [Settled(u)]
    {
      hide Replay, AllGenuine, Sent, Received, LastRead, AckId;
      ghost var held := inflightMsgid > 0;
      inflightMsgid := 0;
      if held {
        NothingRead(log);
        Note(Settled(u));
      }
    }

    // Waits for the acknowledgement of a publish of that QoS, which may settle the stored one.
    method AwaitAck(qos: nat, ghost id0: nat) returns (rc: int)
      requires Valid() && (qos == 1 || qos == 2) && id0 < 65536
      modifies net, sendbuf, readbuf, incoming, this`log, this`calls, this`pingOutstanding
      modifies this`handlers, this`inflightMsgid, this`inflightQoS, this`pubrel, this`isconnected
      ensures Valid() && old(log) <= log && Trailing(log[|old(log)|..]) && (isconnected ==> old(isconnected))
      ensures rc == SUCCESS || rc == FAILURE
      ensures rc == SUCCESS ==> Acked(LastRead(log[|old(log)|..]), qos)
      ensures rc == SUCCESS && old(inflightMsgid) > 0 && Names(LastRead(log[|old(log)|..]), old(inflightMsgid)) ==>
                inflightMsgid == 0
      ensures net.Kept()
      ensures Enough(old(Here()), 0) && AckAtHand(old(net.rx), qos, id0) ==>
                && rc == SUCCESS && net.rx == AfterAck(old(net.rx), qos) && isconnected == old(isconnected)
                && net.Patience() + 3 >= old(net.Patience()) && (id0 == old(inflightMsgid) ==> inflightMsgid == 0)
    {
      hide Idle, Trailing, Socket.Smooth, Socket.Eager, Socket.Patience, Replay, AllGenuine, Framed, Sent, Received,
           LastRead, Mirrors, Flows, ParseAck, AckId, Orderly, AtHand, ReadsFront, AckPacket;
      rc := FAILURE;
      var want := if qos == 1 then PUBACK else PUBCOMP;
      ghost var ready := Enough(Here(), 0) && AckAtHand(net.rx, qos, id0);
      if ready {
        AckReady(net.rx, qos, id0, max);
      }
      var got := WaitFor(want);
      ghost var l0, l1 := old(log), log;
      if ready {
        OneRead(l1[|l0|..]);
        FoundAck(l1[|l0|], old(net.rx), net.rx, readbuf[..], want, id0, max);
      }
      assert l1 == l0 + l1[|l0|..];
      IdleSlot(places, l0, l1[|l0|..]);
      if got == want {
        rc := TakeAck(l0, want);
      } else {
        SettledAdded(l0, l1, log);
      }
    }

    // The acknowledgement in the read buffer, the packet last read since l0.
    method TakeAck(ghost l0: Log, ghost kind: int) returns (rc: int)
      requires Valid() && l0 <= log && Idle(log[|l0|..]) && InBuffer(LastRead(log[|l0|..]), kind)
      requires kind == PUBACK || kind == PUBCOMP
      modifies net`stray, this`log, this`inflightMsgid
      ensures Valid() && old(log) <= log && Trailing(log[|l0|..]) && LastRead(log[|l0|..]) == LastRead(old(log)[|l0|..])
      ensures rc == if AckId(readbuf[..], 0).Some? then SUCCESS else FAILURE
      ensures rc == SUCCESS ==> AckId(LastRead(log[|l0|..]).value.mem, 0).Some?
      ensures inflightMsgid == old(inflightMsgid) || inflightMsgid == 0
      ensures rc == SUCCESS && Names(LastRead(log[|l0|..]), old(inflightMsgid)) ==> inflightMsgid == 0
      ensures (forall u :: AckId(readbuf[..], u) == Some(old(inflightMsgid))) ==> inflightMsgid == 0
    {
      hide Replay, AllGenuine, Framed, Sent, Received, LastRead, Mirrors, Flows, Holds, Orderly, ParseAck, AckId, Idle,
           Trailing;
      ghost var l1 := log;
      ghost var r := LastRead(l1[|l0|..]);
      rc := FAILURE;
      ghost var u;
      var ok, id;
      ok, id, u := ReadAckId();
      AckEither(readbuf[..], u);
      if ok {
        rc := SUCCESS;
        AckInBuffer(r.value.mem, readbuf[..], u, id);
        if inflightMsgid == id {
          LastReadAdded(l0, l1);
          Settle(u);
        }
      }
      SettledAdded(l0, l1, log);
    }

    // Sends the packet in the send buffer and waits for the acknowledgement of its QoS.
    method PublishAndWait(len: nat, qos: nat, ghost id: nat) returns (rc: int)
      requires Valid() && len <= max && qos < 3 && id < 65536
      modifies net, sendbuf, readbuf, incoming, this`log, this`calls, this`pingOutstanding
      modifies this`handlers, this`inflightMsgid, this`inflightQoS, this`pubrel, this`isconnected
      ensures Valid() && old(log) <= log && PublishSent(log[|old(log)|..], old(sendbuf[..len]), qos, rc)
      ensures rc == FAILURE ==> !isconnected && EndsClean(log[|old(log)|..], cleansession)
      ensures isconnected ==> old(isconnected)
      ensures rc == SUCCESS && qos > 0 && old(inflightMsgid) > 0 ==>
                Names(LastRead(log[|old(log)|..]), old(inflightMsgid)) ==> inflightMsgid == 0
      ensures net.Kept() && (old(net.wsched) == [] ==> Full(log[|old(log)|].attempt))
      ensures qos == 0 ==> net.rx == old(net.rx) && (old(net.wsched) == [] ==> rc == SUCCESS)
      ensures Enough(old(Here()), len) && AckAtHand(old(net.rx), qos, id) ==>
                && rc == SUCCESS && net.rx == AfterAck(old(net.rx), qos) && isconnected == old(isconnected)
                && (qos > 0 && id == old(inflightMsgid) ==> inflightMsgid == 0)
    {
      hide Socket.Smooth, Socket.Eager, Socket.Patience, Replay, AllGenuine, Sent, Received, LastRead, Mirrors, Holds,
           Flows, Names, Acked, Full, Trailing, EndsClean, PublishSent, Orderly, AckAtHand, AfterAck;
      NoAck(net.rx, qos);
      ghost var a;
      rc, a := SendRequest(len);
      ghost var l0 := log;
      NothingAdded(l0);
      if rc == SUCCESS && (qos == 1 || qos == 2) {
        rc := AwaitAck(qos, id);
      }
      ghost var l1 := log;
      if rc != SUCCESS {
        CloseSession();
      }
      SentAndWaited(old(log), a, l1, log, qos, rc, cleansession);
    }

    // PacketId::getNext
    method GetNext() returns (id: nat)
      requires nextId < 65536
      modifies this`nextId
      ensures 0 < id == nextId < 65536 && id == NextId(old(nextId))
    {
      nextId := if nextId == 65535 then 1 else nextId + 1;
      id := nextId;
    }

    // Keeps a copy of the serialized publish for a reconnect.
    method Store(len: nat, id: nat, qos: nat, ghost o: Outgoing)
      requires Valid() && 0 < len <= max && sendbuf[..len] == OutgoingPacket(o) && o.id == id < 65536
      requires o.qos == qos < 3
      modifies pubbuf, this`inflightMsgid, this`inflightLen, this`inflightQoS, this`pubrel, this`log
      ensures Valid() && log == old(log) + [Stored(o)] && inflightMsgid == id
    {
      hide Write, OutgoingPacket, Replay, AllGenuine, Sent, Received;
      var _ := WriteBytes(pubbuf, 0, sendbuf[..len]);
      WrittenPrefix(old(pubbuf[..]), sendbuf[..len]);
      inflightMsgid, inflightLen, inflightQoS, pubrel := id, len, qos, false;
      NothingRead(log);
      Note(Stored(o));
    }

    // The serialized publish is kept if the session is, and goes out.
    method StoreAndSend(len: nat, id: nat, qos: nat, ghost o: Outgoing) returns (rc: int)
      requires Valid() && 0 < len <= max && sendbuf[..len] == OutgoingPacket(o) && o.id == id < 65536
      requires o.qos == qos < 3
      modifies net, sendbuf, readbuf, pubbuf, incoming, this`log, this`calls, this`pingOutstanding
      modifies this`handlers, this`inflightMsgid, this`inflightLen, this`inflightQoS, this`pubrel, this`isconnected
      ensures Valid() && net.Kept() && old(log) + Storing(cleansession, o) <= log
      ensures var more := log[|old(log) + Storing(cleansession, o)|..];
              && PublishSent(more, OutgoingPacket(o), qos, rc)
              && (rc == FAILURE ==> !isconnected && EndsClean(more, cleansession))
              && (rc == SUCCESS && qos > 0 && !cleansession && Names(LastRead(more), id) && id > 0 ==>
                    Now().slot == None)
      ensures qos == 0 ==> net.rx == old(net.rx) && (old(net.wsched) == [] ==> rc == SUCCESS)
      ensures Enough(old(Here()), len) && AckAtHand(old(net.rx), qos, id) ==>
                && rc == SUCCESS && net.rx == AfterAck(old(net.rx), qos) && isconnected == old(isconnected)
                && (qos > 0 && !cleansession ==> Now().slot == None)
    {
      hide Socket.Smooth, Socket.Eager, Socket.Patience, Replay, AllGenuine, Sent, Received, LastRead, Mirrors, Flows,
           Names, PublishSent, OutgoingPacket, EndsClean, Orderly, AckAtHand, AfterAck;
      if !cleansession {
        Store(len, id, qos, o);
      }
      rc := PublishAndWait(len, qos, id);
    }

    // id0 is the caller's identifier, used as it is for QoS 0.
    method Publish(topic: bytes, payload: bytes, id0: nat, qos: nat, retained: bool) returns (rc: int, id: nat)
      requires Valid() && qos < 3 && id0 < 65536
      modifies this, net, sendbuf, readbuf, pubbuf, incoming
      ensures Valid() && net.Kept()
      ensures var o := Numbered(old(nextId), topic, payload, id0, qos, retained);
              Published(old(Here()), Here(), rc, o, places, max) && (old(isconnected) ==> id == o.id)
      ensures qos == 0 ==> net.rx == old(net.rx)
      ensures qos == 0 && old(net.wsched) == [] && old(isconnected) ==>
                PacketLen(|PublishBody(0, id0, topic, payload)|) <= max ==> rc == SUCCESS
    {
      hide Socket.Smooth, Socket.Eager, Socket.Patience, Replay, AllGenuine, Sent, Received, LastRead, Mirrors, Flows,
           Holds, Names, PublishSent, Write, OutgoingPacket, PacketLen, Published, PublishPacket, PublishBody,
           PublishLength, EndsClean, Orderly, AckAtHand, AfterAck;
      rc, id := FAILURE, id0;
      ghost var s := Here();
      if !isconnected {
        NotPublished(s, s, Numbered(nextId, topic, payload, id0, qos, retained), places, max);
        return;
      }
      if qos == 1 || qos == 2 {
        id := GetNext();
      }
      var keep := if retained then 1 else 0;
      ghost var o := Outgoing(topic, payload, qos, keep, id);
      PublishSize(qos, id, topic, payload);
      var len := SerializePublish(sendbuf, max, 0, qos, keep, id, MqttString(Some(topic), None), payload);
      if len <= 0 {
        NotPublished(s, Here(), o, places, max);
        return;
      }
      PacketIs(o);
      WrittenPrefix(old(sendbuf[..]), OutgoingPacket(o));
      rc := StoreAndSend(len, id, qos, o);
      SentOff(s, s.log + Storing(s.clean, o), Here(), rc, o, Storing(s.clean, o), places, max);
    }

    // ---------- connecting ----------

    // Sends the stored publish again.
    method ResendInflight() returns (rc: int)
      requires Valid() && inflightMsgid > 0
      modifies net, sendbuf, readbuf, incoming, this`log, this`calls, this`pingOutstanding
      modifies this`handlers, this`inflightMsgid, this`inflightQoS, this`pubrel, this`isconnected
      ensures Valid() && old(log) <= log && old(Now().slot).Some?
      ensures var o := old(Now().slot).value; PublishSent(log[|old(log)|..], OutgoingPacket(o), o.qos, rc)
      ensures net.Kept() && (isconnected ==> old(isconnected))
      ensures old(net.wsched) == [] && old(Now().slot).value.qos == 0 ==> rc == SUCCESS
      ensures var o := old(Now().slot).value;
              Enough(old(Here()), |OutgoingPacket(o)|) && AckAtHand(old(net.rx), o.qos, o.id) ==>
                rc == SUCCESS && net.rx == AfterAck(old(net.rx), o.qos)
    {
      hide Socket.Smooth, Socket.Eager, Socket.Patience, Replay, AllGenuine, Sent, Received, LastRead, Mirrors, Flows,
           OutgoingPacket, Write, Trailing, Acked, Orderly, AckAtHand, AfterAck;
      var _ := WriteBytes(sendbuf, 0, pubbuf[..]);
      WrittenPrefix(old(sendbuf[..]), pubbuf[..]);
      assert sendbuf[..inflightLen] == pubbuf[..inflightLen];
      rc := PublishAndWait(inflightLen, inflightQoS, inflightMsgid);
    }

    // The packet goes out unless it is too long for the buffer.
    method SendConnect(o: C.ConnectData) returns (rc: int, ghost a: Option<Attempt>)
      requires Valid() && C.Usable(o)
      modifies net`tx, net`wsched, net`ticks, sendbuf, this`log, this`keepAliveInterval, this`cleansession
      ensures Valid() && keepAliveInterval == o.keepAlive && cleansession == (o.cleansession != 0)
      ensures log == old(log) + if a.Some? then [Requested(a.value)] else []
      ensures a.None? <==> PacketLen(C.ConnectLength(o)) > max
      ensures a.Some? ==> a.value.packet == C.ConnectPacket(o)
      ensures rc == if a.Some? && Full(a.value) then SUCCESS else FAILURE
      ensures net.Kept() && (old(net.wsched) == [] && a.Some? ==> Full(a.value))
      ensures old(net.Eager()) ==> net.Patience() + |C.ConnectPacket(o)| >= old(net.Patience())
      ensures old(net.Eager()) && |C.ConnectPacket(o)| <= old(net.Patience()) + 1 && a.Some? ==> Full(a.value)
    {
      hide Socket.Smooth, Socket.Eager, Socket.Patience, Replay, AllGenuine, Sent, Received, Mirrors, Holds, Flows,
           Write, C.Usable, C.ConnectPacket, PacketLen, C.ConnectLength, Orderly;
      keepAliveInterval, cleansession := o.keepAlive, o.cleansession != 0;
      rc, a := FAILURE, None;
      var len := C.SerializeConnect(sendbuf, max, o);
      if len > 0 {
        WrittenPrefix(old(sendbuf[..]), C.ConnectPacket(o));
        ghost var a';
        rc, a' := SendRequest(len);
        a := Some(a');
      }
    }

    method AwaitConnack() returns (rc: int)
      requires Valid() && !isconnected
      modifies net, sendbuf, readbuf, incoming, this`log, this`calls, this`pingOutstanding
      modifies this`handlers, this`inflightMsgid, this`inflightQoS, this`pubrel, this`isconnected
      ensures Valid() && Waited(old(Here()), Here())
      ensures rc == SUCCESS ==> Accepted(LastRead(log[|old(log)|..]))
      ensures net.Kept()
      ensures Enough(old(Here()), 0) && ConnackAtHand(old(net.rx), max) ==>
                && rc == CodeAtHand(old(net.rx)) && net.rx == AfterConnack(old(net.rx))
                && net.Patience() + 3 >= old(net.Patience())
    {
      hide Socket.Smooth, Socket.Eager, Socket.Patience, Replay, AllGenuine, Sent, Received, LastRead, Mirrors, Holds,
           Flows, Framed, ConnackCode, Orderly, ConnackAtHand, AtHand, ReadsFront;
      ghost var ready := Enough(Here(), 0) && ConnackAtHand(net.rx, max);
      if ready {
        ConnackReady(net.rx, max);
      }
      var got := WaitFor(CONNACK);
      if ready {
        OneRead(log[|old(log)|..]);
        FoundConnack(log[|old(log)|], old(net.rx), net.rx, readbuf[..], max);
      }
      rc := FAILURE;
      if got == CONNACK {
        rc := ConnackCode(readbuf[..]);
        ConnackInBuffer(LastRead(log[|old(log)|..]).value.mem, readbuf[..]);
      }
    }

    // After the CONNECT: its answer, and then the stored publish again, whose result replaces it.
    method Handshake() returns (rc: int, ghost l: Log)
      requires Valid() && !isconnected
      modifies net, sendbuf, readbuf, incoming, this`log, this`calls, this`pingOutstanding
      modifies this`handlers, this`inflightMsgid, this`inflightQoS, this`pubrel, this`isconnected
      ensures Valid() && !isconnected && old(log) <= l <= log && Idle(l[|old(log)|..]) && Cleaned !in l[|old(log)|..]
      ensures var slot := old(Now().slot);
              if slot.Some? then PublishSent(log[|l|..], OutgoingPacket(slot.value), slot.value.qos, rc)
              else log == l && (rc == SUCCESS ==> Accepted(LastRead(l[|old(log)|..])))
      ensures net.Kept()
      ensures old(net.wsched) == [] && old(Now().slot).Some? && old(Now().slot).value.qos == 0 ==> rc == SUCCESS
      ensures Heard(old(Here()), old(Now().slot), 0, max) ==>
                && rc == (if old(Now().slot).None? then CodeAtHand(old(net.rx)) else SUCCESS)
                && net.rx == AfterHearing(old(net.rx), old(Now().slot))
    {
      hide Socket.Smooth, Socket.Eager, Socket.Patience, Replay, AllGenuine, Sent, Received, LastRead, Mirrors, Flows,
           OutgoingPacket, PublishSent, Accepted, Orderly, AckAtHand, AfterAck, ConnackAtHand;
      rc := AwaitConnack();
      l := log;
      assert l == old(log) + l[|old(log)|..];
      IdleSlot(places, old(log), l[|old(log)|..]);
      if inflightMsgid > 0 && inflightQoS == 2 && pubrel {
        assert false;   // pubrel is only ever cleared
      }
      if inflightMsgid > 0 {
        rc := ResendInflight();
      }
    }

    // A connect that gets past sending CONNECT transmits the in-flight publish again, byte for
    // byte, whatever the broker answers.
    method Connect(o: C.ConnectData) returns (rc: int)
      requires Valid() && C.Usable(o)
      modifies net, sendbuf, readbuf, incoming, this`log, this`calls, this`pingOutstanding
      modifies this`handlers, this`inflightMsgid, this`inflightQoS, this`pubrel, this`isconnected
      modifies this`keepAliveInterval, this`cleansession
      ensures Valid() && Connected(old(Here()), Here(), rc, o, places, max)
      ensures net.Kept() && old(log) <= log && (isconnected <==> old(isconnected) || rc == SUCCESS)
      ensures !old(isconnected) ==> keepAliveInterval == o.keepAlive && (rc == SUCCESS ==> !pingOutstanding)
      ensures old(net.wsched) == [] && old(Now().slot).Some? && old(Now().slot).value.qos == 0 ==>
                PacketLen(C.ConnectLength(o)) <= max && !old(isconnected) ==> rc == SUCCESS
    {
      hide Socket.Smooth, Socket.Eager, Socket.Patience, Replay, AllGenuine, Sent, Received, LastRead, Mirrors, Flows,
           OutgoingPacket, C.Usable, C.ConnectPacket, C.ConnectLength, PacketLen, PublishSent, Accepted, Connected,
           Holds, Idle, Orderly, Heard, AfterHearing;
      rc := FAILURE;
      if isconnected {
        StillConnected(Here(), o, places, max);
        return;
      }
      ghost var s := Here();
      ghost var a;
      rc, a := SendConnect(o);
      HeardLater(s, Here(), Replay(places, s.log).slot, |C.ConnectPacket(o)|, max);
      if rc != SUCCESS {
        NotConnected(s, Here(), rc, o, places, max, a);
        return;
      }
      SlotAfterRequest(places, s.log, a.value);
      rc := Conclude(o, s, a.value);
    }

    // The CONNECT a went out in full since the client stood at s.
    method Conclude(ghost o: C.ConnectData, ghost s: State, ghost a: Attempt) returns (rc: int)
      requires Valid() && !isconnected && !s.connected && log == s.log + [Requested(a)] && Full(a)
      requires a.packet == C.ConnectPacket(o)
      requires nextId == s.nextId && cleansession == (o.cleansession != 0) && PacketLen(C.ConnectLength(o)) <= max
      requires Now().slot == Replay(places, s.log).slot
      requires net.rx == s.rx && (Heard(s, Now().slot, |C.ConnectPacket(o)|, max) ==> Heard(Here(), Now().slot, 0, max))
      modifies net, sendbuf, readbuf, incoming, this`log, this`calls, this`pingOutstanding
      modifies this`handlers, this`inflightMsgid, this`inflightQoS, this`pubrel, this`isconnected
      ensures Valid() && net.Kept() && Connected(s, Here(), rc, o, places, max) && old(log) <= log
      ensures (isconnected <==> rc == SUCCESS) && (rc == SUCCESS ==> !pingOutstanding)
      ensures old(net.wsched) == [] && old(Now().slot).Some? && old(Now().slot).value.qos == 0 ==> rc == SUCCESS
    {
      hide Socket.Smooth, Socket.Eager, Socket.Patience, Replay, AllGenuine, Sent, Received, LastRead, Mirrors, Flows,
           Holds, Orderly, OutgoingPacket, C.ConnectPacket, C.ConnectLength, PacketLen, PublishSent, Accepted,
           Connected, Idle, Heard, AfterHearing;
      ghost var l;
      rc, l := Handshake();
      if rc == SUCCESS {
        isconnected, pingOutstanding := true, false;
      }
      GotThrough(s, l, Here(), rc, o, places, max, a);
    }

    method Disconnect() returns (rc: int)
      requires Valid()
      modifies net, sendbuf, incoming, this`log, this`pingOutstanding
      modifies this`handlers, this`inflightMsgid, this`inflightQoS, this`pubrel, this`isconnected
      ensures Valid() && net.Kept() && Disconnected(old(Here()), Here()) && net.rx == old(net.rx)
    {
      hide Replay, AllGenuine, Sent, Received, Mirrors, Holds, Flows, HeaderByte, Write, Orderly;
      var len := WriteHeader(sendbuf, HeaderByte(DISCONNECT, 0, 0, 0), 0);
      EmptyPacket(HeaderByte(DISCONNECT, 0, 0, 0));
      WrittenPrefix(old(sendbuf[..]), DisconnectPacket());
      ghost var a;
      rc, a := SendRequest(2);
      CloseSession();
    }

    // ---------- handlers and subscriptions ----------

    // The first place of a filter, or the first empty place, in the handler table.
    method FindPlace(filter: Option<string>) returns (i: nat)
      ensures i == PlaceOf(handlers, filter)
    {
      hide PlaceOf;
      i := 0;
      while i < |handlers| && FilterAt(handlers, i) != filter
        invariant i <= |handlers| && forall j :: 0 <= j < i ==> FilterAt(handlers, j) != filter
      {
        i := i + 1;
      }
      assert PlaceOf(handlers, filter) >= i;
    }

    // Fails exactly when there is neither the filter nor, for an addition, an empty place.
    method SetMessageHandler(filter: string, callback: Option<nat>) returns (rc: int)
      requires Valid()
      modifies this`handlers, this`log
      ensures Valid() && log == old(log) + [Installed(filter, callback)]
      ensures callback.Some? && rc == SUCCESS ==> Some(Handler(filter, callback.value)) in handlers
      ensures callback.None? ==> forall i :: 0 <= i < |handlers| ==> FilterAt(handlers, i) != Some(filter)
      ensures |handlers| == old(|handlers|)
      ensures forall i :: 0 <= i < |handlers| && old(handlers)[i].Some? && old(handlers)[i].value.filter != filter ==>
                handlers[i] == old(handlers)[i]
      ensures rc == if PlaceOf(old(handlers), Some(filter)) < |old(handlers)|
                       || (callback.Some? && PlaceOf(old(handlers), None) < |old(handlers)|) then SUCCESS else FAILURE
    {
      hide Replay, AllGenuine, Sent, Received, PlaceOf, FilterAt;
      HandlersDistinct(places, log);
      InstalledMeans(handlers, filter, callback);
      rc := FAILURE;
      var i := FindPlace(Some(filter));
      if i < |handlers| {
        rc := SUCCESS;
        handlers := handlers[i := if callback.Some? then Some(Handler(filter, callback.value)) else None];
      } else if callback.Some? {
        i := FindPlace(None);
        if i < |handlers| {
          rc := SUCCESS;
          handlers := handlers[i := Some(Handler(filter, callback.value))];
        }
      }
      NothingRead(log);
      Note(Installed(filter, callback));
    }

    method SetDefaultMessageHandler(callback: Option<nat>)
      requires Valid()
      modifies this`defaultHandler, this`log
      ensures Valid() && log == old(log) + [DefaultSet(callback)] && defaultHandler == callback
    {
      hide Replay, AllGenuine, Sent, Received;
      defaultHandler := callback;
      NothingRead(log);
      Note(DefaultSet(callback));
    }

    // The answer to a SUBSCRIBE or UNSUBSCRIBE, and the handler it installs or removes. An UNSUBACK
    // is accepted whatever its length, and removing a filter that is not there is no failure.
    method AwaitSuback(withQos: bool, filter: string, callback: Option<nat>, ghost id: nat) returns (rc: int)
      requires Valid()
      modifies net, sendbuf, readbuf, incoming, this`log, this`calls, this`pingOutstanding
      modifies this`handlers, this`inflightMsgid, this`inflightQoS, this`pubrel, this`isconnected
      ensures Valid() && old(log) <= log && (isconnected ==> old(isconnected)) && (rc == SUCCESS || rc == FAILURE)
      ensures Subscribing(log[|old(log)|..], filter, callback)
      ensures rc == SUCCESS ==> Confirmed(log[|old(log)|..], withQos, filter, callback, signedChar)
      ensures Enough(old(Here()), 0) && SubackAtHand(old(net.rx), withQos, id)
              && (withQos ==> HasPlace(old(Now().handlers), filter, callback)) ==>
                && rc == SUCCESS && net.rx == AfterSuback(old(net.rx), withQos) && isconnected == old(isconnected)
                && (Installed(filter, callback) in log[|old(log)|..] <==> !Refuses(old(net.rx), withQos, signedChar))
    {
      hide Socket.Smooth, Socket.Eager, Socket.Patience, Replay, AllGenuine, Sent, Received, LastRead, Holds, Flows,
           Framed, SubackInstalls, Idle, Subscribing, Confirmed, Orderly, SubackAtHand, AtHand, ReadsFront, PlaceOf;
      rc := FAILURE;
      var want := if withQos then SUBACK else UNSUBACK;
      ghost var ready := Enough(Here(), 0) && SubackAtHand(net.rx, withQos, id);
      if ready {
        SubackReady(net.rx, withQos, id, max);
      }
      var got := WaitFor(want);
      ghost var l0, l1 := old(log), log;
      if ready {
        OneRead(l1[|l0|..]);
        FoundSuback(l1[|l0|], old(net.rx), net.rx, readbuf[..], withQos, id, max, signedChar);
        HandlersAfterRead(places, l0, l1);
      }
      if got == want {
        rc := SUCCESS;
        SubackInBuffer(LastRead(l1[|l0|..]).value.mem, readbuf[..], signedChar);
      }
      NotInstalled(l1[|l0|..], withQos, filter, callback, signedChar);
      if got == want {
        if !withQos || SubackInstalls(readbuf[..], signedChar) {
          InstalledAdded(l0, l1, withQos, filter, callback, signedChar);
          var done := SetMessageHandler(filter, callback);
          if withQos {
            rc := done;
          }
        }
      }
    }

    // SUBSCRIBE (withQos) or UNSUBSCRIBE for one filter; a failure closes the session.
    method RequestFilter(withQos: bool, filter: bytes, qos: nat, callback: Option<nat>) returns (rc: int)
      requires Valid()
      modifies this, net, sendbuf, readbuf, incoming
      ensures Valid() && Subscribed(old(Here()), Here(), rc, withQos, filter, qos, callback, places, max, signedChar)
    {
      hide Socket.Smooth, Socket.Eager, Socket.Patience, Replay, AllGenuine, Sent, Received, LastRead, Mirrors, Holds,
           Flows, Write, PacketLen, SubscribePacket, Subscriptions.Body, Subscribed, Confirmed, Chars, Orderly,
           SubackAtHand, AfterSuback, HasPlace;
      ghost var s := Here();
      ghost var a: Option<Attempt> := None;
      rc := FAILURE;
      if isconnected {
        var id := GetNext();
        RequestsOne(filter, qos);
        var topics := [MqttString(Some(filter), None)];
        var len := Subscriptions.SerializeRequest(sendbuf, max, withQos, 0, id, topics, [qos]);
        if len > 0 {
          SubscribePacketIs(withQos, id, filter, qos);
          WrittenPrefix(old(sendbuf[..]), SubscribePacket(withQos, id, filter, qos));
          ghost var a';
          rc, a' := SendRequest(len);
          a := Some(a');
          if rc == SUCCESS {
            HandlersAfterRequest(places, s.log, a');
            rc := AwaitSuback(withQos, Chars(filter), callback, id);
          }
        }
      }
      ghost var l := log;
      if rc == FAILURE {
        CloseSession();
      }
      FilterRequested(s, l, Here(), rc, withQos, filter, qos, callback, places, max, signedChar, a);
    }

    // A null callback removes the handler of the filter instead.
    method Subscribe(filter: bytes, qos: nat, callback: Option<nat>) returns (rc: int)
      requires Valid()
      modifies this, net, sendbuf, readbuf, incoming
      ensures Valid() && Subscribed(old(Here()), Here(), rc, true, filter, qos, callback, places, max, signedChar)
    {
      hide Subscribed, Valid;
      rc := RequestFilter(true, filter, qos, callback);
    }

    method Unsubscribe(filter: bytes) returns (rc: int)
      requires Valid()
      modifies this, net, sendbuf, readbuf, incoming
      ensures Valid() && Subscribed(old(Here()), Here(), rc, false, filter, 0, None, places, max, signedChar)
    {
      hide Subscribed, Valid;
      rc := RequestFilter(false, filter, 0, None);
    }
  }

  // ---------- whole runs ----------

  method Perform(c: Client, a: Api) returns (rc: int)
    requires c.Valid() && Allowed(a)
    modifies c, c.net, c.sendbuf, c.readbuf, c.pubbuf, c.incoming
    ensures c.Valid() && Outcome(a, rc, old(c.Here()), c.Here(), c.places, c.max, c.signedChar)
  {
    hide Client.Valid, C.Usable, Connected, Published, Subscribed, Yielded, Disconnected;
    rc := SUCCESS;
    match a
    case DoConnect(o) => rc := c.Connect(o);
    case DoPublish(t, p, id, q, r) => var i; rc, i := c.Publish(t, p, id, q, r);
    case DoSubscribe(f, q, h) => rc := c.Subscribe(f, q, h);
    case DoUnsubscribe(f) => rc := c.Unsubscribe(f);
    case DoYield => rc := c.Yield();
    case DoDisconnect => rc := c.Disconnect();
    case DoSetHandler(f, h) => rc := c.SetMessageHandler(f, h);
    case DoSetDefault(h) => c.SetDefaultMessageHandler(h);
  }

  // Any program of API calls over any network. Every call has its outcome, the bytes on the wire
  // are those of the log in both directions, and the client's fields are what the log comes to; a
  // faultless network is read packet by packet.
  // Hence: two deliveries of a QoS 2 identifier without cleaning between them have an answered
  // PUBREL for it between them; each identifier was delivered, since the session was last cleaned,
  // as often as it was released, and once more while it is in the table; identifier 0 never.
  method RunSession(net: Socket, size: nat, places: nat, signed: bool, uninitialised: nat, program: seq<Api>)
    returns (c: Client, rcs: seq<int>, ghost states: seq<State>)
    requires 5 <= size <= MAX_REMAINING && forall i :: 0 <= i < |program| ==> Allowed(program[i])
    modifies net
    ensures c.Valid() && c.net == net && c.rx0 == old(net.rx) && c.tx0 == old(net.tx) && c.incoming.Length == 10
    ensures |rcs| == |program| && |states| == |program| + 1
    ensures states[0] == State([], false, true, 0, old(net.rx), old(net.Smooth() && net.Eager()), old(net.Patience()))
    ensures states[|program|] == c.Here()
    ensures old(net.Smooth()) ==> AllFront(old(net.rx), c.log, size)
    ensures forall i :: 0 <= i < |program| ==>
              Outcome(program[i], rcs[i], states[i], states[i + 1], places, size, signed)
    ensures forall i, j, id :: 0 <= i < j && DeliversAt(places, c.log, i, id) && DeliversAt(places, c.log, j, id)
                               && (forall k :: i < k < j ==> c.log[k] != Cleaned) ==>
              id != 0 && exists k :: i < k < j && ReleasesAt(c.log, k, id)
    ensures Lawful(Replay(places, c.log)) && c.incoming[..] == Replay(places, c.log).recv.table
  {
    hide Client.Mirrors, Client.Holds, Client.Flows, Outcome, Replay, AllGenuine, Lawful, Allowed, AllFront;
    c := new Client(net, size, places, signed, uninitialised);
    ghost var s0 := c.Here();
    rcs, states := [], [s0];
    for i := 0 to |program|
      invariant c.Valid() && c.net == net && c.places == places && c.max == size && c.signedChar == signed
      invariant c.rx0 == old(net.rx) && c.tx0 == old(net.tx) && c.smooth0 == old(net.Smooth())
      invariant fresh(c) && fresh(c.sendbuf) && fresh(c.readbuf) && fresh(c.pubbuf) && fresh(c.incoming)
      invariant |rcs| == i && |states| == i + 1 && states[0] == s0 && states[i] == c.Here()
      invariant forall j :: 0 <= j < i ==> Outcome(program[j], rcs[j], states[j], states[j + 1], places, size, signed)
    {
      var rc := Perform(c, program[i]);
      rcs, states := rcs + [rc], states + [c.Here()];
    }
    ReplayLawful(places, c.log);
    TableOf(c);
    forall i, j, id | 0 <= i < j && DeliversAt(places, c.log, i, id) && DeliversAt(places, c.log, j, id)
                      && (forall k :: i < k < j ==> c.log[k] != Cleaned)
      ensures id != 0 && exists k :: i < k < j && ReleasesAt(c.log, k, id)
    {
      AtMostOnce(places, c.log, i, j, id);
    }
  }

  // A client that keeps a QoS 0 publish connects to a network that takes everything and says
  // nothing: no CONNACK is read, and connect succeeds.
  method ConnectsUnheard(c: Client, o: C.ConnectData) returns (rc: int)
    requires c.Valid() && !c.isconnected && C.Usable(o) && PacketLen(C.ConnectLength(o)) <= c.max
    requires c.net.rx == [] && c.net.wsched == [] && c.Now().slot.Some? && c.inflightQoS == 0
    modifies c, c.net, c.sendbuf, c.readbuf, c.incoming
    ensures rc == SUCCESS && c.isconnected && old(c.log) <= c.log
    ensures forall i :: |old(c.log)| <= i < |c.log| && c.log[i].Read? ==> c.log[i].raw == []
  {
    hide Replay, AllGenuine, Sent, Received, Client.Mirrors, C.Usable, C.ConnectLength, PacketLen, Connected,
         OutgoingPacket;
    ghost var l0 := c.log;
    assert |c.rx0| == |Received(l0)|;
    rc := c.Connect(o);
    assert |c.rx0| == |Received(c.log)| + |c.net.rx|;
    ReceivedNothing(l0, c.log);
  }

  // A new client on a network that takes everything in time, with a broker that answers CONNECT:
  // the code of its CONNACK is the result, and 0 alone connects.
  method ConnectsHeard(o: C.ConnectData, flags: byte, code: byte, rest: bytes, size: nat, places: nat)
    returns (c: Client, rc: int)
    requires C.Usable(o) && 5 <= size <= MAX_REMAINING && PacketLen(C.ConnectLength(o)) <= size
    ensures fresh(c) && fresh(c.net) && fresh(c.sendbuf) && fresh(c.readbuf) && fresh(c.pubbuf) && fresh(c.incoming)
    ensures c.Valid() && c.max == size && c.places == places && c.cleansession == (o.cleansession != 0)
    ensures rc == code && (c.isconnected <==> code == 0) && c.net.rx == rest && c.net.wsched == []
  {
    hide Replay, AllGenuine, C.Usable, C.ConnectLength, C.ConnectPacket, PacketLen, Connected, LeadingNo,
         Client.Mirrors, Client.Holds, Client.Flows, Client.Orderly;
    ConnectFits(o, size);
    var net := new Socket([32, 2, flags, code] + rest, [], [], seq(size + 3, _ => false), []);
    AllNo(size + 3);
    c := new Client(net, size, places, true, 0);
    NewSession(places);
    ghost var s := c.Here();
    rc := c.Connect(o);
    HeardConnects(s, c.Here(), rc, o, places, size);
    assert s.rx[4..] == rest;
  }

  lemma HeardConnects(s: State, t: State, rc: int, o: C.ConnectData, places: nat, max: nat)
    requires Connected(s, t, rc, o, places, max) && !s.connected && PacketLen(C.ConnectLength(o)) <= max
    requires Heard(s, Replay(places, s.log).slot, |C.ConnectPacket(o)|, max) && Replay(places, s.log).slot.None?
    ensures rc == CodeAtHand(s.rx) && (t.connected <==> rc == 0) && t.rx == AfterConnack(s.rx)
    ensures t.clean == (o.cleansession != 0)
  {
    hide Replay, C.ConnectLength, C.ConnectPacket, PacketLen, Heard, ResentAt, Accepted, LastRead, Idle, CodeAtHand,
         AfterConnack;
  }

  // In a kept session a publish of QoS 0 under an identifier stays in the store after disconnecting.
  method KeepsPublish(c: Client, topic: bytes, payload: bytes, id: nat, retained: bool) returns (rc: int)
    requires c.Valid() && c.isconnected && !c.cleansession && c.net.rx == [] && c.net.wsched == []
    requires 0 < id < 65536 && PacketLen(|PublishBody(0, id, topic, payload)|) <= c.max
    modifies c, c.net, c.sendbuf, c.readbuf, c.pubbuf, c.incoming
    ensures c.Valid() && !c.isconnected && rc == SUCCESS && c.net.rx == [] && c.net.wsched == []
    ensures c.Now().slot == Some(Outgoing(topic, payload, 0, if retained then 1 else 0, id)) && c.inflightQoS == 0
  {
    hide Replay, AllGenuine, Sent, Received, Client.Mirrors, Client.Flows, Client.Orderly, PacketLen, PublishBody,
         OutgoingPacket, LastRead, Acked, Names, Enough, AckAtHand, AfterAck;
    ghost var l := c.log;
    var sent;
    rc, sent := c.Publish(topic, payload, id, 0, retained);
    ghost var p := Outgoing(topic, payload, 0, if retained then 1 else 0, id);
    ghost var more := c.log[|l|..];
    assert more == [Stored(p), more[1]] && more[1].Requested? by { assert more[1..][0] == more[1] && |more[1..]| == 1; }
    assert c.log == l + more;
    var _ := c.Disconnect();
    StoredSlot(c.places, c.log, |l|, p);
  }

  // Such a client arises: a new one that keeps its session connects, publishes with QoS 0 and
  // disconnects. Then the network falls silent, and the next connect succeeds without a byte of an
  // answer.
  method UnheardRun(o: C.ConnectData, topic: bytes, payload: bytes, id: nat, retained: bool, flags: byte,
                    size: nat, places: nat)
    returns (c: Client, rcs: seq<int>, ghost before: Log)
    requires C.Usable(o) && o.cleansession == 0 && 0 < id < 65536 && 5 <= size <= MAX_REMAINING
    requires PacketLen(C.ConnectLength(o)) <= size && PacketLen(|PublishBody(0, id, topic, payload)|) <= size
    ensures c.isconnected && rcs == [SUCCESS, SUCCESS, SUCCESS] && before <= c.log
    ensures forall i :: |before| <= i < |c.log| && c.log[i].Read? ==> c.log[i].raw == []
  {
    hide Client.Valid, C.Usable, C.ConnectLength, PacketLen, PublishBody, Replay;
    var rc1, rc2, rc3;
    c, rc1 := ConnectsHeard(o, flags, 0, [], size, places);
    rc2 := KeepsPublish(c, topic, payload, id, retained);
    before := c.log;
    rc3 := ConnectsUnheard(c, o);
    rcs := [rc1, rc2, rc3];
  }

  lemma ConnectFits(o: C.ConnectData, size: nat)
    requires C.Usable(o) && PacketLen(C.ConnectLength(o)) <= size <= MAX_REMAINING
    ensures |C.ConnectPacket(o)| <= size
  {
    hide C.Usable, C.ConnectLength, C.ConnectBody, EncodeLen, PacketLen, HeaderByte;
    C.ConnectLengthExact(o);
    PacketLenGrows(C.ConnectLength(o));
    PacketLenExact(C.ConnectLength(o));
  }

  lemma NewSession(places: nat)
    ensures Replay(places, []).slot == None
  {
  }

  lemma AllNo(n: nat)
    ensures LeadingNo(seq(n, _ => false)) == n
  {
    if n > 0 {
      assert seq(n, _ => false)[1..] == seq(n - 1, _ => false);
      AllNo(n - 1);
    }
  }

  lemma {:induction false} ReceivedNothing(a: Log, b: Log)
    requires a <= b
    ensures |Received(a)| <= |Received(b)|
    ensures |Received(b)| <= |Received(a)| ==> forall i :: |a| <= i < |b| && b[i].Read? ==> b[i].raw == []
  {
    if |a| < |b| {
      ReceivedNothing(a, b[..|b| - 1]);
      assert forall i :: |a| <= i < |b| - 1 ==> b[i] == b[..|b| - 1][i];
    } else {
      assert a == b;
    }
  }

  lemma TableOf(c: Client)
    requires c.Mirrors(c.Now())
    ensures c.incoming[..] == Replay(c.places, c.log).recv.table
  {
  }

  lemma SubscribePacketIs(withQos: bool, id: nat, filter: bytes, qos: int)
    ensures SubscribePacket(withQos, id, filter, qos)
         == Subscriptions.RequestPacket(withQos, 0, id, Subscriptions.Requests([MqttString(Some(filter), None)], [qos]))
  {
    RequestsOne(filter, qos);
  }

  lemma RequestsOne(filter: bytes, qos: int)
    ensures Subscriptions.Requests([MqttString(Some(filter), None)], [qos]) == [Subscriptions.Request(filter, qos)]
  {
    var s := MqttString(Some(filter), None);
    assert [s][0] == s && StrBytes(s) == filter;
  }

  lemma EmptyPacket(h: byte)
    ensures Packet(h, []) == [h] + EncodeLen(0) && |Packet(h, [])| == 2
  {
    assert [h] + EncodeLen(0) + [] == [h] + EncodeLen(0);
  }

  lemma FirstPlace(t: seq<nat>, v: nat, i: nat)
    requires i < |t| && t[i] == v && v !in t[..i]
    ensures Q.IndexOf(t, v) == i
  {
  }

  lemma WaitedNot(s: State)
    ensures Waited(s, s) && s.log[|s.log|..] == [] && LastRead([]) == None
  {
  }

  lemma MoreSent(tx: bytes, b: bytes, done: nat, n: nat, length: nat)
    requires done + n <= length <= |b|
    ensures tx + b[..done] + b[done..length][..n] == tx + b[..done + n]
  {
    assert b[..done] + b[done..length][..n] == b[..done + n];
  }

  lemma BytesSent(b: bytes, length: nat, done: nat)
    requires done <= length <= |b|
    ensures Bytes(Attempt(b[..length], done)) == b[..done]
  {
  }

  lemma Regrouped(a: Log, b: Log, c: Log)
    ensures a + b + c == a + (b + c)
  {
  }

  lemma Regroup(a: bytes, b: bytes, c: bytes)
    ensures a + (b + c) == a + b + c
  {
  }

  lemma NothingRead(log: Log)
    ensures Received(log) + [] == Received(log)
    ensures forall b: bytes :: b + Sent(log) + [] == b + Sent(log)
  {
  }

  // Bytes taken off a stream are its front.
  lemma TakenOff(taken: bytes, left: bytes, s: bytes)
    requires taken + left == s
    ensures taken == s[..|taken|] && left == s[|taken|..]
  {
  }

  function Scale(len: nat): nat {
    if len == 0 then 1 else if len == 1 then 128 else if len == 2 then 16384
    else if len == 3 then 2097152 else 268435456
  }

  lemma DigitBound(c: byte, value: nat, len: nat)
    requires len < 4 && value < Scale(len)
    ensures value + Digit(c, Scale(len)) < Scale(len + 1)
  {
  }

  predicate Continues(field: bytes) { forall i :: 0 <= i < |field| ==> field[i] >= 128 }

  lemma NoField()
    ensures DecodeLen([]) == Decoded(1, 0, 0)
  {
  }

  // A field that has ended, or at which the stream ends, is the field of the stream.
  lemma FrontField(field: bytes, rest: bytes)
    requires FieldEnds(field) || rest == []
    ensures DecodeLen(field + rest) == DecodeLen(field)
  {
    if rest == [] {
      assert field + rest == field;
    } else {
      DecodeIgnoresRest(field, rest, 0, 1, 0);
    }
  }

  lemma FieldGrows(field: bytes, c: byte, value: nat)
    requires Continues(field) && |field| < 4 && DecodeLen(field) == Decoded(|field| + 1, value, |field|)
    ensures DecodeLen(field + [c])
         == Decoded(|field| + (if c >= 128 then 2 else 1), value + Digit(c, Scale(|field|)), |field| + 1)
  {
    hide Digit, DecodeFrom;
    FieldSnoc(field, c, 0, 0);
  }

  // One more byte at the end of a field that goes on.
  lemma {:induction false} FieldSnoc(field: bytes, c: byte, len: nat, value: nat)
    requires Continues(field) && len + |field| < 4
    ensures var v := DecodeFrom(field, len, Scale(len), value).value + Digit(c, Scale(len + |field|));
            DecodeFrom(field + [c], len, Scale(len), value)
            == Decoded(len + |field| + (if c >= 128 then 2 else 1), v, len + |field| + 1)
    decreases |field|
  {
    hide Digit, DecodeFrom;
    var x := field + [c];
    DecodeStep(x, len, Scale(len), value);
    DecodeStep(field, len, Scale(len), value);
    if field == [] {
      assert x[1..] == [];
      DecodeStep([], len + 1, Scale(len) * 128, value + Digit(c, Scale(len)));
    } else {
      assert x[1..] == field[1..] + [c] && x[0] == field[0];
      FieldSnoc(field[1..], c, len + 1, value + Digit(field[0], Scale(len)));
    }
  }

  // Memory behind the packet changes nothing about how it is framed or read.
  lemma FramedBehind(b: bytes, behind: bytes)
    requires Framed(b, 0)
    ensures Framed(b + behind, |behind|) && DecodeLen((b + behind)[1..]) == DecodeLen(b[1..])
  {
    assert (b + behind)[1..] == b[1..] + behind;
    DecodeIgnoresRest(b[1..], behind, 0, 1, 0);
  }

  lemma {:induction false} DecodeIgnoresRest(s: bytes, rest: bytes, len: nat, multiplier: nat, value: nat)
    requires len <= 4
    requires var d := DecodeFrom(s, len, multiplier, value); d.len == d.used || d.used == 4
    ensures DecodeFrom(s + rest, len, multiplier, value) == DecodeFrom(s, len, multiplier, value)
    decreases 4 - len
  {
    if len < 4 {
      assert (s + rest)[0] == s[0];
      if s[0] >= 128 {
        assert (s + rest)[1..] == s[1..] + rest;
        DecodeIgnoresRest(s[1..], rest, len + 1, multiplier * 128, value + Digit(s[0], multiplier));
      }
    }
  }

  lemma Behind(raw: bytes, kind: int, b: bytes, behind: bytes)
    requires Framed(b, 0) && |behind| == 2 && exists k :: 0 <= k <= 4 && ReadsWith(raw, kind, b, k)
    ensures ReadsAs(raw, kind, b + behind)
  {
    hide DecodeLen, EncodeLen, Framed;
    FramedBehind(b, behind);
    var k :| 0 <= k <= 4 && ReadsWith(raw, kind, b, k);
    assert b <= b + behind;
    assert ReadsWith(raw, kind, b + behind, k);
  }

  lemma FrontBehind(raw: bytes, kind: int, b: bytes, behind: bytes, s: bytes, max: nat)
    requires TakesFront(raw, kind, b, s, max)
    ensures TakesFront(raw, kind, b + behind, s, max)
  {
    hide PacketReader.BlockingOut, PacketReader.Complete;
  }

  lemma FrontKind(e: Happening, s: bytes, kind: int, max: nat)
    requires e.Read? && ReadsFront(e, s, max) && AtHand(s, kind, max)
    ensures e.kind == kind
  {
    hide PacketReader.BlockingOut, PacketReader.Complete;
  }

  lemma FramedShorter(mem: bytes)
    requires Framed(mem, 2)
    ensures Framed(mem, 0)
  {
  }

  // The acknowledgement in the buffer is the one in memory.
  lemma AckBehind(b: bytes, behind: bytes, u: nat)
    requires Framed(b, 0)
    ensures Framed(b + behind, 0) && Body(b + behind) == Body(b) && AckId(b + behind, u) == AckId(b, u)
    ensures ParseAck(b + behind) == ParseAck(b) && ConnackCode(b + behind) == ConnackCode(b)
  {
    hide DecodeLen;
    FramedBehind(b, behind);
    assert (b + behind)[BodyStart(b)..BodyEnd(b)] == b[BodyStart(b)..BodyEnd(b)];
  }

  lemma NoAck(s: bytes, qos: nat)
    ensures qos == 0 ==> AfterAck(s, qos) == s
  {
  }

  // A packet at the front of the stream is at hand.
  lemma PacketReady(s: bytes, h: byte, body: bytes, max: nat)
    requires Packet(h, body) <= s && HeaderType(h) != 0 && |body| <= MAX_REMAINING && |Packet(h, body)| <= max
    ensures AtHand(s, HeaderType(h), max)
    ensures PacketReader.BlockingOut(s, max) == PacketReader.ReadOut(HeaderType(h), Packet(h, body), |Packet(h, body)|)
  {
    hide HeaderType, EncodeLen, DecodeLen, PacketReader.Complete, PacketReader.BlockingOut;
    var p := Packet(h, body);
    PacketReader.ReadsPacket(h, body, s[|p|..], max);
    assert s == p + s[|p|..];
  }

  // Read off the front of s, it is in the buffer.
  lemma PacketFound(e: Happening, s: bytes, rest: bytes, b: bytes, h: byte, body: bytes, max: nat)
    requires Packet(h, body) <= s && HeaderType(h) != 0 && |body| <= MAX_REMAINING && |Packet(h, body)| <= max == |b|
    requires e.Read? && ReadsFront(e, s, max) && e.raw + rest == s && |e.mem| >= max && e.mem[..max] == b
    ensures rest == s[|Packet(h, body)|..] && Packet(h, body) <= b && Framed(b, 0) && Body(b) == body
    ensures |body| < 128 ==> DecodeLen(b[1..]).len == 1
  {
    hide HeaderType, EncodeLen, DecodeLen, PacketReader.Complete, PacketReader.BlockingOut;
    PacketReady(s, h, body, max);
    var p := Packet(h, body);
    assert p <= b by { assert e.mem[..max][..|p|] == e.mem[..|p|]; }
    assert b == p + b[|p|..];
    PacketFramed(h, body, b[|p|..]);
    EncodeLenSize(|body|);
  }

  function AckHeader(kind: nat): byte { HeaderByte(kind, 0, if kind == PUBREL then 1 else 0, 0) }

  lemma AckIs(kind: nat, id: nat)
    requires 0 < kind < 16
    ensures AckPacket(kind, 0, id) == Packet(AckHeader(kind), U16(id)) && HeaderType(AckHeader(kind)) == kind
  {
    hide HeaderByte, HeaderType;
    HeaderRoundTrip(kind, 0, if kind == PUBREL then 1 else 0, 0);
  }

  // The acknowledgement is the packet at hand.
  lemma AckReady(s: bytes, qos: nat, id: nat, max: nat)
    requires (qos == 1 || qos == 2) && AckAtHand(s, qos, id) && id < 65536 && max >= 5
    ensures AckPacket(AckKind(qos), 0, id) <= s && AtHand(s, AckKind(qos), max)
  {
    hide AckPacket, AckHeader, HeaderType, U16, AtHand, Packet;
    WireImage.AckImage(id);
    assert s[..4] == AckPacket(AckKind(qos), 0, id);
    AckIs(AckKind(qos), id);
    PacketReady(s, AckHeader(AckKind(qos)), U16(id), max);
  }

  lemma FoundAck(e: Happening, s: bytes, rest: bytes, b: bytes, kind: nat, id: nat, max: nat)
    requires AckPacket(kind, 0, id) <= s && 0 < kind < 16 && id < 65536 && |b| == max >= 5
    requires e.Read? && ReadsFront(e, s, max) && e.raw + rest == s && |e.mem| >= max && e.mem[..max] == b
    ensures rest == s[4..] && Framed(b, 0) && forall u :: AckId(b, u) == Some(id)
  {
    hide AckPacket, AckHeader, HeaderType, U16, ReadsFront, Framed, ParseAck;
    AckIs(kind, id);
    PacketFound(e, s, rest, b, AckHeader(kind), U16(id), max);
    assert b == AckPacket(kind, 0, id) + b[4..];
    AckRoundTrip(kind, 0, id, b[4..]);
  }

  lemma OneRead(x: Log)
    requires |x| == 1 && x[0].Read?
    ensures Cleaned !in x && LastRead(x) == Some(x[0])
  {
    assert x == [x[0]];
  }

  lemma NothingAdded(l: Log)
    ensures l[|l|..] == [] && Trailing([])
  {
  }

  // A publish, its acknowledgement, and the end of the session after a failure.
  lemma SentAndWaited(l: Log, a: Attempt, l1: Log, l2: Log, qos: nat, rc: int, clean: bool)
    requires l + [Requested(a)] <= l1 && Trailing(l1[|l| + 1..]) && (rc == SUCCESS || rc == FAILURE)
    requires l2 == if rc == SUCCESS then l1 else l1 + Cleaning(clean)
    requires rc == SUCCESS ==> Full(a) && (qos > 0 ==> Acked(LastRead(l1[|l| + 1..]), qos))
    requires qos == 0 && Full(a) ==> rc == SUCCESS && l1 == l + [Requested(a)]
    ensures l <= l2 && PublishSent(l2[|l|..], a.packet, qos, rc) && l2[|l|] == Requested(a)
    ensures rc == FAILURE ==> EndsClean(l2[|l|..], clean)
    ensures rc == SUCCESS ==> LastRead(l2[|l|..]) == LastRead(l1[|l| + 1..])
  {
    hide LastRead, Acked, Full;
    AfterRequest(l, Requested(a), l1);
    AfterRequest(l, Requested(a), l2);
    if rc != SUCCESS {
      TrailingClean(l1[|l| + 1..], clean);
      assert l2[|l| + 1..] == l1[|l| + 1..] + Cleaning(clean);
    }
  }

  lemma AckEither(mem: bytes, u: nat)
    ensures AckId(mem, u).Some? <==> AckId(mem, 0).Some?
  {
  }

  // The acknowledgement in memory is the one in the buffer, and it names id unless it is too short.
  lemma AckInBuffer(mem: bytes, b: bytes, u: nat, id: nat)
    requires |b| <= |mem| && mem[..|b|] == b && Framed(b, 0) && AckId(b, u) == Some(id)
    ensures AckId(mem, u) == Some(id) && AckId(mem, 0).Some? && Framed(mem, 0)
    ensures ParseAck(mem).id.Some? ==> ParseAck(mem).id.value == id
  {
    hide Framed, ParseAck;
    AckBehind(b, mem[|b|..], u);
    assert mem == b + mem[|b|..];
  }

  lemma LastReadAdded(a: Log, b: Log)
    requires a <= b && LastRead(b[|a|..]).Some?
    ensures LastRead(b) == LastRead(b[|a|..])
  {
    assert b == a + b[|a|..];
    LastReadConcat(a, b[|a|..]);
  }

  lemma SettledAdded(a: Log, b: Log, c: Log)
    requires a <= b && (c == b || exists u :: c == b + [Settled(u)])
    ensures a <= c && LastRead(c[|a|..]) == LastRead(b[|a|..]) && (Idle(b[|a|..]) ==> Trailing(c[|a|..]))
  {
    if c != b {
      var u :| c == b + [Settled(u)];
      assert c[|a|..] == b[|a|..] + [Settled(u)];
      assert [Settled(u)][..0] == [];
      LastReadConcat(b[|a|..], [Settled(u)]);
    }
  }

  lemma ConnackInBuffer(mem: bytes, b: bytes)
    requires |b| <= |mem| && mem[..|b|] == b && Framed(b, 0)
    ensures Framed(mem, 0) && ConnackCode(mem) == ConnackCode(b)
  {
    hide Framed, ConnackCode;
    AckBehind(b, mem[|b|..], 0);
    assert mem == b + mem[|b|..];
  }

  lemma PublishSize(qos: nat, id: nat, topic: bytes, payload: bytes)
    ensures PublishLength(qos, MqttString(Some(topic), None), |payload|) == |PublishBody(qos, id, topic, payload)|
  {
  }

  lemma PacketIs(o: Outgoing)
    ensures var topic := MqttString(Some(o.topic), None);
            OutgoingPacket(o) == PublishPacket(0, o.qos, o.retained, o.id, StrBytes(topic), o.payload)
  {
  }

  lemma StoredFirst(a: Log, stored: Log, b: Log, c: Log)
    requires b == a + stored && b <= c && |stored| <= 1 && (stored != [] ==> stored[0].Stored?)
    ensures a <= c && stored <= c[|a|..] && c[|a|..][|stored|..] == c[|b|..] && LastRead(c[|a|..]) == LastRead(c[|b|..])
    ensures forall clean :: EndsClean(c[|b|..], clean) ==> EndsClean(c[|a|..], clean)
  {
    assert c[|a|..] == stored + c[|b|..];
    LastReadConcat(stored, c[|b|..]);
    if stored != [] {
      assert stored[..0] == [];
    }
  }

  function Storing(clean: bool, o: Outgoing): Log { if clean then [] else [Stored(o)] }

  lemma NotPublished(s: State, t: State, o: Outgoing, places: nat, max: nat)
    requires if !s.connected then t == s
             else
               && t.log == s.log && t.connected && t.clean == s.clean
               && t.nextId == (if o.qos > 0 then NextId(s.nextId) else s.nextId)
               && (o.qos > 0 ==> o.id == t.nextId) && PacketLen(|PublishBody(o.qos, o.id, o.topic, o.payload)|) > max
    ensures Published(s, t, FAILURE, o, places, max)
  {
    hide PacketLen, PublishBody, Replay, PublishSent, OutgoingPacket, Enough, AckAtHand, AfterAck, Names, LastRead,
         EndsClean;
  }

  lemma SentOff(s: State, l: Log, t: State, rc: int, o: Outgoing, stored: Log, places: nat, max: nat)
    requires s.connected && t.clean == s.clean && t.nextId == (if o.qos > 0 then NextId(s.nextId) else s.nextId)
    requires o.qos > 0 ==> o.id == t.nextId
    requires PacketLen(|PublishBody(o.qos, o.id, o.topic, o.payload)|) <= max
    requires stored == (if s.clean then [] else [Stored(o)]) && l == s.log + stored && l <= t.log
    requires PublishSent(t.log[|l|..], OutgoingPacket(o), o.qos, rc)
    requires rc == FAILURE ==> !t.connected && EndsClean(t.log[|l|..], s.clean)
    requires rc == SUCCESS && o.qos > 0 && !s.clean && Names(LastRead(t.log[|l|..]), o.id) ==>
               Replay(places, t.log).slot == None
    requires Enough(s, |OutgoingPacket(o)|) && AckAtHand(s.rx, o.qos, o.id) ==>
               && rc == SUCCESS && t.connected && t.rx == AfterAck(s.rx, o.qos)
               && (o.qos > 0 && !s.clean ==> Replay(places, t.log).slot == None)
    ensures Published(s, t, rc, o, places, max)
  {
    hide PacketLen, PublishBody, Replay, PublishSent, OutgoingPacket, Names, LastRead, Enough, AckAtHand, AfterAck,
         EndsClean;
    StoredFirst(s.log, stored, l, t.log);
  }

  lemma SlotAfterRequest(places: nat, log: Log, a: Attempt)
    ensures Replay(places, log + [Requested(a)]).slot == Replay(places, log).slot
  {
    Snoc(places, log, Requested(a));
  }

  lemma StillConnected(s: State, o: C.ConnectData, places: nat, max: nat)
    requires s.connected
    ensures Connected(s, s, FAILURE, o, places, max)
  {
  }

  lemma Resent(a: Log, q: Happening, b: Log, c: Log, o: Outgoing, rc: int)
    requires q.Requested? && a + [q] <= b <= c && Idle(b[|a| + 1..]) && Cleaned !in b[|a|..]
    requires PublishSent(c[|b|..], OutgoingPacket(o), o.qos, rc)
    ensures a <= c && c[|a|] == q && ResentAt(c[|a|..], |b| - |a|, o, rc)
  {
    hide OutgoingPacket;
    Added(a, b, c);
    var m, k := c[|a|..], |b| - |a|;
    assert m[..k] == b[|a|..] && m[k..] == c[|b|..] && m[1..k] == b[|a| + 1..];
  }

  // Once CONNECT is out there is still time for the rest.
  lemma HeardLater(s: State, t: State, slot: Option<Outgoing>, length: nat, max: nat)
    requires t.rx == s.rx && (s.calm ==> t.calm && t.patience + length >= s.patience)
    ensures Heard(s, slot, length, max) ==> Heard(t, slot, 0, max) && s.calm && length <= s.patience + 1
  {
    hide OutgoingPacket, AckAtHand, AfterAck;
  }

  lemma Types()
    ensures HeaderType(32) == CONNACK && HeaderType(144) == SUBACK && HeaderType(176) == UNSUBACK
  {
  }

  // A packet shorter than 128 bytes at the front of the stream.
  lemma ShortFront(s: bytes, first: byte, n: nat)
    requires n < 128 && 2 + n <= |s| && s[0] == first && s[1] == n
    ensures Packet(first, s[2..2 + n]) <= s && |Packet(first, s[2..2 + n])| == 2 + n
  {
    hide Packet;
    WireImage.ShortImage(first, s[2..2 + n]);
    assert s[..2 + n] == [first, n] + s[2..2 + n];
  }

  lemma ConnackReady(s: bytes, max: nat)
    requires ConnackAtHand(s, max)
    ensures AtHand(s, CONNACK, max)
  {
    hide Packet, HeaderType, AtHand;
    Types();
    ShortFront(s, 32, s[1]);
    PacketReady(s, 32, s[2..2 + s[1]], max);
  }

  lemma FoundConnack(e: Happening, s: bytes, rest: bytes, b: bytes, max: nat)
    requires ConnackAtHand(s, max) && |b| == max
    requires e.Read? && ReadsFront(e, s, max) && e.raw + rest == s && |e.mem| >= max && e.mem[..max] == b
    ensures rest == AfterConnack(s) && Framed(b, 0) && ConnackCode(b) == CodeAtHand(s)
  {
    hide Packet, HeaderType, ReadsFront, Framed, DecodeLen;
    Types();
    ShortFront(s, 32, s[1]);
    PacketFound(e, s, rest, b, 32, s[2..2 + s[1]], max);
  }

  lemma SubackReady(s: bytes, withQos: bool, id: nat, max: nat)
    requires SubackAtHand(s, withQos, id) && max >= 5
    ensures AtHand(s, if withQos then SUBACK else UNSUBACK, max)
  {
    hide Packet, HeaderType, AtHand;
    Types();
    ShortFront(s, s[0], s[1]);
    PacketReady(s, s[0], s[2..2 + s[1]], max);
  }

  lemma FoundSuback(e: Happening, s: bytes, rest: bytes, b: bytes, withQos: bool, id: nat, max: nat, signed: bool)
    requires SubackAtHand(s, withQos, id) && |b| == max >= 5
    requires e.Read? && ReadsFront(e, s, max) && e.raw + rest == s && |e.mem| >= max && e.mem[..max] == b
    ensures rest == AfterSuback(s, withQos) && Framed(b, 0)
    ensures withQos ==> (SubackInstalls(b, signed) <==> !Refuses(s, withQos, signed))
  {
    hide Packet, HeaderType, ReadsFront, Framed, DecodeLen;
    Types();
    ShortFront(s, s[0], s[1]);
    PacketFound(e, s, rest, b, s[0], s[2..2 + s[1]], max);
  }

  lemma NotConnected(s: State, t: State, rc: int, o: C.ConnectData, places: nat, max: nat, a: Option<Attempt>)
    requires !s.connected && !t.connected && t.nextId == s.nextId && t.clean == (o.cleansession != 0) && rc == FAILURE
    requires t.log == s.log + if a.Some? then [Requested(a.value)] else []
    requires a.None? <==> PacketLen(C.ConnectLength(o)) > max
    requires a.Some? ==>
               && a.value.packet == C.ConnectPacket(o) && !Full(a.value)
               && !Heard(s, Replay(places, s.log).slot, |C.ConnectPacket(o)|, max)
    ensures Connected(s, t, rc, o, places, max)
  {
    hide C.ConnectLength, C.ConnectPacket, PacketLen, Replay, Heard, AfterHearing, OutgoingPacket, Accepted, LastRead;
    assert t.log[|s.log|..] == if a.Some? then [Requested(a.value)] else [];
  }

  lemma GotThrough(s: State, l: Log, t: State, rc: int, o: C.ConnectData, places: nat, max: nat, a: Attempt)
    requires !s.connected && t.nextId == s.nextId && t.clean == (o.cleansession != 0)
    requires (t.connected <==> rc == SUCCESS)
    requires PacketLen(C.ConnectLength(o)) <= max && a.packet == C.ConnectPacket(o) && Full(a)
    requires s.log + [Requested(a)] <= l <= t.log && Idle(l[|s.log| + 1..]) && Cleaned !in l[|s.log| + 1..]
    requires var slot := Replay(places, s.log).slot;
             if slot.Some? then PublishSent(t.log[|l|..], OutgoingPacket(slot.value), slot.value.qos, rc)
             else t.log == l && (rc == SUCCESS ==> Accepted(LastRead(l[|s.log| + 1..])))
    requires var slot := Replay(places, s.log).slot;
             Heard(s, slot, |C.ConnectPacket(o)|, max) ==>
               rc == (if slot.None? then CodeAtHand(s.rx) else SUCCESS) && t.rx == AfterHearing(s.rx, slot)
    ensures Connected(s, t, rc, o, places, max)
  {
    hide C.ConnectLength, C.ConnectPacket, PacketLen, Replay, OutgoingPacket, PublishSent, Accepted, LastRead, Heard,
         AfterHearing;
    var slot := Replay(places, s.log).slot;
    AfterRequest(s.log, Requested(a), t.log);
    AfterRequest(s.log, Requested(a), l);
    if slot.Some? {
      Resent(s.log, Requested(a), l, t.log, slot.value, rc);
    }
  }

  lemma SubackInBuffer(mem: bytes, b: bytes, signed: bool)
    requires |b| <= |mem| && mem[..|b|] == b && Framed(b, 0)
    ensures Framed(mem, 0) && SubackInstalls(mem, signed) == SubackInstalls(b, signed)
  {
    hide Framed, DecodeLen;
    AckBehind(b, mem[|b|..], 0);
    FramedBehind(b, mem[|b|..]);
    assert mem == b + mem[|b|..];
  }

  // What installing or removing a handler does to the table.
  lemma InstalledMeans(hs: seq<Option<Handler>>, filter: string, callback: Option<nat>)
    requires FiltersDistinct(hs)
    ensures var hs' := Installing(hs, filter, callback);
            && |hs'| == |hs|
            && (callback.Some? && (PlaceOf(hs, Some(filter)) < |hs| || PlaceOf(hs, None) < |hs|) ==>
                  Some(Handler(filter, callback.value)) in hs')
            && (callback.None? ==> forall i :: 0 <= i < |hs'| ==> FilterAt(hs', i) != Some(filter))
            && forall i :: 0 <= i < |hs| && hs[i].Some? && hs[i].value.filter != filter ==> hs'[i] == hs[i]
  {
    hide PlaceOf, Installing;
    InstallingKeeps(hs, filter, callback);
  }

  lemma HandlersAfterRead(places: nat, a: Log, b: Log)
    requires |b| == |a| + 1 && a <= b && b[|a|].Read?
    ensures Replay(places, b).handlers == Replay(places, a).handlers
  {
    hide Replay, Apply;
    assert b == a + [b[|a|]];
    Snoc(places, a, b[|a|]);
    ApplyRecv(Replay(places, a), b[|a|]);
  }

  lemma HandlersAfterRequest(places: nat, log: Log, a: Attempt)
    ensures Replay(places, log + [Requested(a)]).handlers == Replay(places, log).handlers
  {
    Snoc(places, log, Requested(a));
  }

  lemma NotInstalled(x: Log, withQos: bool, filter: string, callback: Option<nat>, signed: bool)
    requires Idle(x)
    ensures Subscribing(x, filter, callback) && Installed(filter, callback) !in x
    ensures ReadLast(x, if withQos then SUBACK else UNSUBACK) && !Installs(x, withQos, signed) ==>
              Confirmed(x, withQos, filter, callback, signed)
  {
    hide LastRead;
  }

  lemma InstalledAdded(a: Log, b: Log, withQos: bool, filter: string, callback: Option<nat>, signed: bool)
    requires a <= b && Idle(b[|a|..])
    requires ReadLast(b[|a|..], if withQos then SUBACK else UNSUBACK) && Installs(b[|a|..], withQos, signed)
    ensures var more := (b + [Installed(filter, callback)])[|a|..];
            && Subscribing(more, filter, callback) && Confirmed(more, withQos, filter, callback, signed)
            && Installed(filter, callback) in more
  {
    hide LastRead;
    var x, h := b[|a|..], Installed(filter, callback);
    LastOne(h);
    LastReadConcat(x, [h]);
    assert (b + [h])[|a|..] == x + [h];
    assert (x + [h])[|x|] == h;
  }

  lemma FilterRequested(s: State, l: Log, t: State, rc: int, withQos: bool, filter: bytes, qos: nat,
                        callback: Option<nat>, places: nat, max: nat, signed: bool, a: Option<Attempt>)
    requires s.log <= l && t.clean == s.clean && (t.connected ==> s.connected) && (rc == FAILURE ==> !t.connected)
    requires t.log == if rc == FAILURE then l + Cleaning(s.clean) else l
    requires t.nextId == if s.connected then NextId(s.nextId) else s.nextId
    requires a.None? ==> l == s.log && rc == FAILURE
    requires var rs := [Subscriptions.Request(filter, qos)];
             a.None? <==> !s.connected || PacketLen(|Subscriptions.Body(withQos, t.nextId, rs)|) > max
    requires a.Some? ==>
               && s.log + [Requested(a.value)] <= l && a.value.packet == SubscribePacket(withQos, t.nextId, filter, qos)
               && Subscribing(l[|s.log| + 1..], Chars(filter), callback)
    requires a.Some? && rc != FAILURE ==>
               Full(a.value) && Confirmed(l[|s.log| + 1..], withQos, Chars(filter), callback, signed)
    requires a.Some? && Enough(s, |SubscribePacket(withQos, t.nextId, filter, qos)|)
             && SubackAtHand(s.rx, withQos, t.nextId)
             && (withQos ==> HasPlace(Replay(places, s.log).handlers, Chars(filter), callback)) ==>
               && rc == SUCCESS && t.connected && t.rx == AfterSuback(s.rx, withQos)
               && (Installed(Chars(filter), callback) in l[|s.log| + 1..] <==> !Refuses(s.rx, withQos, signed))
    ensures Subscribed(s, t, rc, withQos, filter, qos, callback, places, max, signed)
  {
    hide PacketLen, Subscriptions.Body, SubscribePacket, LastRead, Chars, SubackInstalls, Enough, HasPlace, Replay,
         SubackAtHand, AfterSuback;
    if a.Some? {
      AfterRequest(s.log, Requested(a.value), l);
      AfterRequest(s.log, Requested(a.value), t.log);
      if rc == FAILURE {
        assert t.log[|s.log| + 1..] == l[|s.log| + 1..] + Cleaning(s.clean);
      }
    } else {
      assert t.log[|s.log|..] == Cleaning(s.clean);
    }
  }

  lemma NoDelivery(s: Session, p: PublishIn)
    requires p == PublishBad
    ensures Deliveries(s.recv.table, p) == [] && CallsFor(s, []) == [] && s.calls + [] == s.calls
  {
  }

  lemma ReadsItself(head: bytes, body: bytes, mem: bytes)
    requires 1 <= |head| <= 5 && DecodeLen(head[1..]).value == |body| && DecodeLen(head[1..]).used == |head| - 1
    requires [head[0]] + EncodeLen(|body|) + body <= mem
    ensures ReadsWith(head + body, HeaderType(head[0]), mem, |head| - 1)
  {
    hide DecodeLen, EncodeLen;
    var raw, k := head + body, |head| - 1;
    assert raw[1..1 + k] == head[1..] && raw[1 + k..] == body;
  }

  // A buffer that begins with a packet is framed, whatever follows.
  lemma ReadBufferFramed(b: bytes, header: byte, body: bytes)
    requires |body| <= MAX_REMAINING && |Packet(header, body)| <= |b|
    ensures var m := Write(b, 0, Packet(header, body));
            Framed(m, 0) && m[0] == header && m[..|Packet(header, body)|] == Packet(header, body)
  {
    var p := Packet(header, body);
    assert Write(b, 0, p) == p + b[|p|..];
    PacketFramed(header, body, b[|p|..]);
  }
}
