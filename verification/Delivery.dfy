/**
What an incoming packet does to the application and the wire, from its bytes: which handlers are
called with which message, what is answered, and what cleaning a session means for QoS 2. Stated
without the functions that the client computes it with.
*/
module Delivery {
  import opened Basics
  import opened Wire
  import opened Publish
  import opened WireImage
  import opened TopicLevels
  import opened ClientMatcher
  import opened SessionLog
  import opened SessionRuns
  import opened ClientSession
  import opened Network
  import PacketReader
  import Q = Qos2Receiver

  // ---------- handlers ----------

  // The filter is the topic, or matches it: by section 4.7.1 of MQTT Version 3.1.1 unless a wildcard
  // meets an empty level, or but for one empty level more. An ill-formed filter is left to the cursors.
  predicate Takes(h: Option<Handler>, topic: bytes) {
    && h.Some?
    && var filter, name := h.value.filter, Chars(topic);
       var f, n := Split(filter), Split(name);
       filter == name
       || if WellFormed(f) then Filled(f, n) && (Matches(f, n) || OneMore(f, n)) else Cursor(filter, name)
  }

  lemma TakesIsAccepts(h: Option<Handler>, topic: bytes)
    ensures Takes(h, topic) <==> Accepts(h, topic)
  {
    hide Chars, Split, Cursor, Filled, OneMore, Matches, WellFormed, ClientLevels;
    if h.Some? && WellFormed(Split(h.value.filter)) {
      CursorIsLevels(h.value.filter, Chars(topic));
      ClientExactly(Split(h.value.filter), Split(Chars(topic)));
    }
  }

  predicate Increasing(js: seq<nat>) { forall a, b :: 0 <= a < b < |js| ==> js[a] < js[b] }

  // js are the places of the handlers that take the topic, in table order.
  predicate Takers(hs: seq<Option<Handler>>, topic: bytes, js: seq<nat>) {
    && Increasing(js) && (forall k :: 0 <= k < |js| ==> js[k] < |hs| && Takes(hs[js[k]], topic))
    && forall i :: 0 <= i < |hs| && Takes(hs[i], topic) ==> i in js
  }

  // One call for each of them; the default handler if there is none.
  function Made(hs: seq<Option<Handler>>, default: Option<nat>, js: seq<nat>, m: Message): seq<Call>
    requires forall k :: 0 <= k < |js| ==> js[k] < |hs| && hs[js[k]].Some?
  {
    if js != [] then seq(|js|, k requires 0 <= k < |js| => Call(hs[js[k]].value.callback, m))
    else if default.Some? then [Call(default.value, m)]
    else []
  }

  lemma {:induction false} SelectedTakers(hs: seq<Option<Handler>>, m: Message) returns (js: seq<nat>)
    ensures Takers(hs, m.topic, js)
    ensures Selected(hs, m) == seq(|js|, k requires 0 <= k < |js| => Call(hs[js[k]].value.callback, m))
  {
    hide Takes, Accepts;
    js := [];
    if hs != [] {
      var n := |hs| - 1;
      var before := hs[..n];
      js := SelectedTakers(before, m);
      TakesIsAccepts(hs[n], m.topic);
      if Accepts(hs[n], m.topic) {
        TakesSome(hs[n], m.topic);
        js := js + [n];
      }
      TakersGrow(hs, m.topic, if Accepts(hs[n], m.topic) then js[..|js| - 1] else js, js);
    }
  }

  lemma TakesSome(h: Option<Handler>, topic: bytes)
    ensures Takes(h, topic) ==> h.Some?
  {
  }

  lemma TakersGrow(hs: seq<Option<Handler>>, topic: bytes, js: seq<nat>, js': seq<nat>)
    requires hs != [] && Takers(hs[..|hs| - 1], topic, js)
    requires js' == if Takes(hs[|hs| - 1], topic) then js + [|hs| - 1] else js
    ensures Takers(hs, topic, js')
  {
    hide Takes;
    var n := |hs| - 1;
    forall i | 0 <= i < |hs| && Takes(hs[i], topic) ensures i in js' {
      if i < n {
        assert hs[..n][i] == hs[i] && i in js;
      } else {
        assert js'[|js|] == n;
      }
    }
  }

  // ---------- an incoming PUBLISH ----------

  function MessageSent(dup: nat, qos: nat, retained: nat, id: nat, topic: bytes, payload: bytes): Message {
    Message(topic, payload, |payload|, qos, if qos > 0 then id else 0, dup, retained)
  }

  // PUBACK or PUBREC.
  function AnswerBytes(qos: nat, id: nat): bytes
    requires id < 65536
  {
    if qos == 0 then [] else [if qos == 1 then 64 else 80, 2, id / 256, id % 256]
  }

  // For QoS 2 the table must have a place and not the identifier.
  predicate Passes(table: seq<nat>, qos: nat, id: nat) { qos < 2 || (id !in table && 0 in table) }

  lemma PublishHeard(places: nat, log: Log, h: Happening, dup: nat, qos: nat, retained: nat, id: nat, topic: bytes,
                     payload: bytes, rest: bytes) returns (js: seq<nat>)
    requires dup < 2 && qos < 3 && retained < 2 && id < 65536 && |topic| < 65536 && |rest| >= 2
    requires 2 + |topic| + (if qos > 0 then 2 else 0) + |payload| <= 268435455
    requires h.Read? && h.kind == 3 && h.mem == PublishBytes(dup, qos, retained, id, topic, payload) + rest
    requires Genuine(h, places, log)
    ensures var s, t := Replay(places, log), Replay(places, log + [h]);
            var m := MessageSent(dup, qos, retained, id, topic, payload);
            && Takers(s.handlers, topic, js)
            && t.messages == s.messages + (if Passes(s.recv.table, qos, id) then [m] else [])
            && t.calls == s.calls + (if Passes(s.recv.table, qos, id) then Made(s.handlers, s.default, js, m) else [])
            && (qos == 2 && id != 0 ==> (id in t.recv.table <==> id in s.recv.table || 0 in s.recv.table))
    ensures if qos == 0 then h.reply.None? else h.reply.Some? && h.reply.value.packet == AnswerBytes(qos, id)
  {
    hide Replay, Selected, Takers, PublishBytes, ParsePublish, Framed, AckPacket, ReadsAs, Q.Use, Q.Free;
    var s := Replay(places, log);
    var m := MessageSent(dup, qos, retained, id, topic, payload);
    PublishParsed(dup, qos, retained, id, topic, payload, rest);
    AckImage(id);
    Snoc(places, log, h);
    js := SelectedTakers(s.handlers, m);
    TakersSome(s.handlers, topic, js);
    assert PublishOf(h) == ParsePublish(h.mem);
    if 0 in s.recv.table {
      Q.UsedIn(s.recv.table, id);
    }
    assert s.messages + [] == s.messages && s.calls + [] == s.calls;
  }

  lemma TakersSome(hs: seq<Option<Handler>>, topic: bytes, js: seq<nat>)
    requires Takers(hs, topic, js)
    ensures forall k :: 0 <= k < |js| ==> js[k] < |hs| && hs[js[k]].Some?
  {
  }

  // ---------- PUBREC and PUBREL ----------

  // PUBREC is answered by PUBREL and PUBREL by PUBCOMP, with the identifier; an answered PUBREL takes
  // that identifier, and no other, out of the table.
  lemma ReleaseHeard(places: nat, log: Log, h: Happening, first: byte, hi: byte, lo: byte, rest: bytes)
    requires h.Read? && h.mem == [first, 2, hi, lo] + rest && Genuine(h, places, log)
    ensures h.kind == 5 ==> h.reply.Some? && h.reply.value.packet == [98, 2, hi, lo]
    ensures h.kind == 6 ==> h.reply.Some? && h.reply.value.packet == [112, 2, hi, lo]
    ensures h.kind == 6 && h.reply.value.sent == 4 ==>
              var s, t := Replay(places, log).recv.table, Replay(places, log + [h]).recv.table;
              forall x: nat :: x != 0 ==> (x in t <==> x in s && x != 256 * hi + lo)
  {
    hide Replay, Framed, ParseAck, AckPacket, ReadsAs, Q.Free, Q.Lawful;
    AckParsed(first, hi, lo, rest);
    AckImage(256 * hi + lo);
    Snoc(places, log, h);
    ApplyRecv(Replay(places, log), h);
    ReplayLawful(places, log);
    if h.kind == 6 && h.reply.value.sent == 4 {
      forall x: nat | x != 0
        ensures x in Replay(places, log + [h]).recv.table <==> x in Replay(places, log).recv.table && x != 256 * hi + lo
      {
        Q.FreedOnly(Replay(places, log).recv, 256 * hi + lo, x);
      }
    }
  }

  // ---------- cleaning ----------

  // Whatever came before, cleaning leaves an empty table, no handler and no stored publish, and
  // nothing counts as delivered since.
  lemma CleanedAfresh(places: nat, log: Log, i: nat)
    requires i < |log| && log[i] == Cleaned
    ensures var s := Replay(places, log[..i + 1]);
            && |s.recv.table| == 10 && (forall k :: 0 <= k < |s.recv.table| ==> s.recv.table[k] == 0)
            && s.recv.delivered == [] && s.recv.freed == [] && s.mark == |s.messages|
            && |s.handlers| == places && (forall k :: 0 <= k < |s.handlers| ==> s.handlers[k] == None)
            && s.slot == None && s.messages == Replay(places, log[..i]).messages
  {
    ReplayStep(places, log, i);
    HandlersDistinct(places, log[..i]);
  }

  // A clean session that a failing call or a disconnect ends leaves nothing behind.
  lemma EndedAfresh(a: Api, rc: int, s: State, t: State, places: nat, max: nat, signedChar: bool)
    requires Outcome(a, rc, s, t, places, max, signedChar) && s.connected && s.clean && !t.connected
    requires a.DoDisconnect? || (rc == -1 && (a.DoPublish? || a.DoSubscribe? || a.DoUnsubscribe?))
    ensures var z := Replay(places, t.log);
            && |z.recv.table| == 10 && (forall k :: 0 <= k < |z.recv.table| ==> z.recv.table[k] == 0)
            && (forall k :: 0 <= k < |z.handlers| ==> z.handlers[k] == None) && z.slot == None
  {
    hide Replay, PublishSent, Subscribing, Confirmed, SubscribePacket, PacketLen, Enough, AckAtHand, SubackAtHand;
    var i := |t.log| - 1;
    assert |t.log| > |s.log| && t.log[|s.log|..][|t.log| - |s.log| - 1] == t.log[i];
    assert t.log[..i + 1] == t.log;
    CleanedAfresh(places, t.log, i);
  }

  // A QoS 2 PUBLISH right after cleaning is delivered, whatever identifiers were in use before.
  lemma DeliveredAfterCleaning(places: nat, log: Log, i: nat, p: PublishIn)
    requires i + 1 < |log| && log[i] == Cleaned && log[i + 1].Read? && log[i + 1].kind == 3 && Framed(log[i + 1].mem, 2)
    requires ParsePublish(log[i + 1].mem) == p && p.PublishIn? && p.qos == 2 && p.id != 0
    ensures Replay(places, log[..i + 2]).messages
         == Replay(places, log[..i + 1]).messages
            + [Message(p.topic, p.payload, p.payloadlen, 2, p.id, p.dup, p.retained)]
    ensures p.id in Replay(places, log[..i + 2]).recv.table
  {
    hide Replay, ParsePublish, Framed, Q.Use, CallsFor;
    CleanedAfresh(places, log, i);
    ReplayStep(places, log, i + 1);
    var s := Replay(places, log[..i + 1]);
    assert s.recv.table[0] == 0 && p.id !in s.recv.table;
    Q.UsedIn(s.recv.table, p.id);
  }

  // Only messages after the last cleaning count: until the next one the deliveries of the receiver
  // are the QoS 2 messages since.
  lemma {:induction false} DeliveredSince(places: nat, log: Log, i: nat, j: nat)
    requires i < j <= |log| && log[i] == Cleaned && forall k :: i < k < j ==> log[k] != Cleaned
    ensures var m, s := |Replay(places, log[..i + 1]).messages|, Replay(places, log[..j]);
            m <= |s.messages| && s.recv.delivered == Qos2Ids(s.messages[m..])
  {
    hide Replay, Qos2Ids, Q.Lawful;
    MarkSince(places, log, i, j);
    ReplayLawful(places, log[..j]);
  }

  lemma {:induction false} MarkSince(places: nat, log: Log, i: nat, j: nat)
    requires i < j <= |log| && log[i] == Cleaned && forall k :: i < k < j ==> log[k] != Cleaned
    ensures Replay(places, log[..j]).mark == |Replay(places, log[..i + 1]).messages|
  {
    hide Replay, Deliveries, CallsFor, EventOf, Installing;
    if j == i + 1 {
      CleanedAfresh(places, log, i);
    } else {
      MarkSince(places, log, i, j - 1);
      ReplayStep(places, log, j - 1);
    }
  }

  // ---------- the client ----------

  lemma {:induction false} SilentCalls(places: nat, a: Log, x: Log)
    requires Silent(x)
    ensures Replay(places, a + x).calls == Replay(places, a).calls && SessionLog.Sent(a) <= SessionLog.Sent(a + x)
  {
    hide Replay, SessionLog.Sent;
    if x == [] {
      assert a + x == a;
    } else {
      var y, h := x[..|x| - 1], x[|x| - 1];
      SilentCalls(places, a, y);
      assert a + x == (a + y) + [h];
      Snoc(places, a + y, h);
    }
  }

  // One cycle on a faultless network with a PUBLISH at its front: exactly the handlers that take its
  // topic are called, in table order, each with the message sent, or else the default one; it is
  // answered, and the rest of the stream is left.
  method HearsPublish(c: Client, ghost dup: nat, ghost qos: nat, ghost retained: nat, ghost id: nat, ghost topic: bytes,
                      ghost payload: bytes, ghost rest: bytes) returns (rc: int, ghost js: seq<nat>)
    requires c.Valid() && c.net.Smooth()
    requires dup < 2 && qos < 3 && retained < 2 && id < 65536 && |topic| < 65536
    requires 2 + |topic| + (if qos > 0 then 2 else 0) + |payload| <= 268435455
    requires var p := PublishBytes(dup, qos, retained, id, topic, payload); c.net.rx == p + rest && |p| <= c.max
    modifies c, c.net, c.sendbuf, c.readbuf, c.incoming
    ensures c.Valid() && c.net.rx == rest && Takers(old(c.handlers), topic, js)
    ensures c.calls == old(c.calls)
                       + if Passes(old(c.incoming[..]), qos, id)
                         then Made(old(c.handlers), old(c.defaultHandler), js,
                                   MessageSent(dup, qos, retained, id, topic, payload))
                         else []
    ensures old(c.net.Eager()) && old(c.net.Patience()) >= 3 ==> old(c.net.tx) + AnswerBytes(qos, id) <= c.net.tx
  {
    hide Replay, AllGenuine, Genuine, SessionLog.Sent, Received, Client.Holds, Client.Orderly, Takers, Takes, Made,
         Waited, PublishBytes, ReadsFront, LastRead, Socket.Smooth, Socket.Eager, Socket.Patience, Silent, Passes,
         AnswerBytes, MessageSent, Chars, Calm, Apply;
    ghost var l := c.log;
    ghost var p := PublishBytes(dup, qos, retained, id, topic, payload);
    ghost var e;
    rc, e := c.Cycle();
    FrontPublish(e, dup, qos, retained, id, topic, payload, rest, c.net.rx, c.max);
    ghost var tail := c.log[|l| + 1..];
    assert c.log == l + [e] + tail;
    GenuineAt(c.places, c.log, |l|);
    assert c.log[..|l|] == l;
    js := PublishHeard(c.places, l, e, dup, qos, retained, id, topic, payload, e.mem[|p|..]);
    SilentCalls(c.places, l + [e], tail);
    AnswerOnWire(l, e, qos, id);
  }

  lemma AnswerOnWire(log: Log, h: Happening, qos: nat, id: nat)
    requires id < 65536 && h.Read?
    requires if qos == 0 then h.reply.None? else h.reply.Some? && h.reply.value.packet == AnswerBytes(qos, id)
    ensures (h.reply.Some? ==> Full(h.reply.value)) ==>
              SessionLog.Sent(log + [h]) == SessionLog.Sent(log) + AnswerBytes(qos, id)
  {
    hide SessionLog.Sent;
    Snoc(0, log, h);
    assert AnswerBytes(qos, id)[..|AnswerBytes(qos, id)|] == AnswerBytes(qos, id);
  }

  lemma FrontPublish(e: Happening, dup: nat, qos: nat, retained: nat, id: nat, topic: bytes, payload: bytes,
                     rest: bytes, left: bytes, max: nat)
    requires dup < 2 && qos < 3 && retained < 2 && id < 65536 && |topic| < 65536
    requires 2 + |topic| + (if qos > 0 then 2 else 0) + |payload| <= 268435455
    requires var p := PublishBytes(dup, qos, retained, id, topic, payload);
             && |p| <= max && e.Read? && |e.mem| == max + 2 && ReadsFront(e, p + rest, max) && e.raw + left == p + rest
    ensures var p := PublishBytes(dup, qos, retained, id, topic, payload);
            e.kind == 3 && left == rest && e.mem == p + e.mem[|p|..] && |e.mem[|p|..]| >= 2
  {
    hide HeaderByte, HeaderType, PublishBody, PublishBytes, DecodeLen, PacketReader.Complete, PacketReader.BlockingOut;
    var p := PublishBytes(dup, qos, retained, id, topic, payload);
    var h, body := HeaderByte(PUBLISH, dup, qos, retained), PublishBody(qos, id, topic, payload);
    PublishImage(dup, qos, retained, id, topic, payload);
    HeaderRoundTrip(PUBLISH, dup, qos, retained);
    BodySize(qos, id, topic, payload);
    PacketReady(p + rest, h, body, max);
  }

  lemma BodySize(qos: nat, id: nat, topic: bytes, payload: bytes)
    ensures |PublishBody(qos, id, topic, payload)| == 2 + |topic| + (if qos > 0 then 2 else 0) + |payload|
  {
  }

  // Likewise for a PUBREC, which is answered by PUBREL, and a PUBREL, which is answered by PUBCOMP.
  method HearsRelease(c: Client, ghost first: byte, ghost hi: byte, ghost lo: byte, ghost rest: bytes) returns (rc: int)
    requires c.Valid() && c.net.Smooth() && (first == 80 || first == 98) && c.net.rx == [first, 2, hi, lo] + rest
    modifies c, c.net, c.sendbuf, c.readbuf, c.incoming
    ensures c.Valid() && c.net.rx == rest && c.calls == old(c.calls)
    ensures old(c.net.Eager()) && old(c.net.Patience()) >= 3 ==>
              old(c.net.tx) + [if first == 80 then 98 else 112, 2, hi, lo] <= c.net.tx
  {
    hide Replay, AllGenuine, Genuine, SessionLog.Sent, Received, Client.Holds, Client.Orderly, Waited, ReadsFront,
         LastRead, Socket.Smooth, Socket.Eager, Socket.Patience, Silent, AckId;
    ghost var l := c.log;
    ghost var e;
    rc, e := c.Cycle();
    FrontRelease(e, first, hi, lo, rest, c.net.rx, c.max);
    ghost var tail := c.log[|l| + 1..];
    assert c.log == l + [e] + tail;
    GenuineAt(c.places, c.log, |l|);
    assert c.log[..|l|] == l;
    ReleaseHeard(c.places, l, e, first, hi, lo, e.mem[4..]);
    SilentCalls(c.places, l + [e], tail);
    Snoc(c.places, l, e);
    NoDelivery(Replay(c.places, l), PublishBad);
    if e.reply.Some? && Full(e.reply.value) {
      assert e.reply.value.packet[..4] == e.reply.value.packet;
    }
  }

  lemma FrontRelease(e: Happening, first: byte, hi: byte, lo: byte, rest: bytes, left: bytes, max: nat)
    requires (first == 80 || first == 98) && max >= 5
    requires var s := [first, 2, hi, lo] + rest;
             e.Read? && |e.mem| == max + 2 && ReadsFront(e, s, max) && e.raw + left == s
    ensures e.kind == (if first == 80 then 5 else 6) && left == rest && e.mem == [first, 2, hi, lo] + e.mem[4..]
  {
    hide Packet, AtHand;
    var s := [first, 2, hi, lo] + rest;
    ShortFront(s, first, 2);
    PacketReady(s, first, s[2..4], max);
    assert s[2..4] == [hi, lo];
    ShortImage(first, [hi, lo]);
    assert HeaderType(80) == 5 && HeaderType(98) == 6;
  }
}
