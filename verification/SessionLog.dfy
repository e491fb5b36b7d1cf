/**
What a client session is, told by the log of what happened to it: the packets it read and how it
answered them, the packets it sent, and the changes of its own state. The session (receive table,
handlers, stored publish, deliveries) is a replay of the log, and the laws of sections 4.3.3 and 4.4
of MQTT Version 3.1.1 are laws of logs.
*/
module SessionLog {
  import opened Basics
  import opened Wire
  import opened Publish
  import ClientMatcher
  import PacketReader
  import WireImage
  import Q = Qos2Receiver

  const SUCCESS := 0
  const FAILURE := -1
  const BUFFER_OVERFLOW := -2
  const CONNACK := 2
  const PINGREQ := 12
  const QOS2_PLACES := 10

  datatype Message = Message(topic: bytes, payload: bytes, payloadlen: int, qos: nat, id: nat, dup: nat, retained: nat)

  // A publish of this client's own.
  datatype Outgoing = Outgoing(topic: bytes, payload: bytes, qos: nat, retained: nat, id: nat)

  function OutgoingPacket(o: Outgoing): bytes { PublishPacket(0, o.qos, o.retained, o.id, o.topic, o.payload) }

  function PingPacket(): bytes { Packet(HeaderByte(PINGREQ, 0, 0, 0), []) }

  // Section 3.12 of MQTT Version 3.1.1.
  lemma PingImage()
    ensures PingPacket() == [192, 0]
  {
    WireImage.ShortImage(HeaderByte(PINGREQ, 0, 0, 0), []);
  }

  // ---------- handlers ----------

  datatype Handler = Handler(filter: string, callback: nat)

  datatype Call = Call(callback: nat, message: Message)

  function Chars(b: bytes): (s: string)
    ensures |s| == |b| && forall i :: 0 <= i < |b| ==> s[i] as int == b[i]
  {
    seq(|b|, i requires 0 <= i < |b| => b[i] as char)
  }

  predicate Accepts(h: Option<Handler>, topic: bytes) {
    h.Some? && (Chars(topic) == h.value.filter || ClientMatcher.Cursor(h.value.filter, Chars(topic)))
  }

  // Every handler whose filter fits, in table order.
  function Selected(hs: seq<Option<Handler>>, m: Message): seq<Call> {
    if hs == [] then []
    else Selected(hs[..|hs| - 1], m)
         + if Accepts(hs[|hs| - 1], m.topic) then [Call(hs[|hs| - 1].value.callback, m)] else []
  }

  // The default handler takes a message that no other handler took.
  function Dispatched(hs: seq<Option<Handler>>, default: Option<nat>, m: Message): seq<Call> {
    var s := Selected(hs, m);
    if s == [] && default.Some? then [Call(default.value, m)] else s
  }

  function FilterAt(hs: seq<Option<Handler>>, i: nat): Option<string>
    requires i < |hs|
  {
    if hs[i].Some? then Some(hs[i].value.filter) else None
  }

  // The first place with the filter, or the first empty one.
  function PlaceOf(hs: seq<Option<Handler>>, filter: Option<string>): (i: nat)
    ensures i <= |hs| && (i < |hs| ==> FilterAt(hs, i) == filter)
    ensures forall j :: 0 <= j < i ==> FilterAt(hs, j) != filter
  {
    if hs == [] || FilterAt(hs, 0) == filter then 0
    else
      var i := PlaceOf(hs[1..], filter);
      assert forall j :: 0 < j < |hs| ==> FilterAt(hs, j) == FilterAt(hs[1..], j - 1);
      i + 1
  }

  function Place(hs: seq<Option<Handler>>, i: nat, h: Option<Handler>): seq<Option<Handler>> {
    if i < |hs| then hs[i := h] else hs
  }

  // A callback goes to the filter's own place or the first empty one, if there is any; without a
  // callback the filter's place is emptied.
  function Installing(hs: seq<Option<Handler>>, filter: string, callback: Option<nat>): seq<Option<Handler>> {
    var i := PlaceOf(hs, Some(filter));
    if callback.None? then Place(hs, i, None)
    else Place(hs, if i < |hs| then i else PlaceOf(hs, None), Some(Handler(filter, callback.value)))
  }

  // No two places have the same filter.
  predicate FiltersDistinct(hs: seq<Option<Handler>>) {
    forall i, j :: 0 <= i < j < |hs| && FilterAt(hs, i).Some? ==> FilterAt(hs, i) != FilterAt(hs, j)
  }

  predicate HasFilter(hs: seq<Option<Handler>>, filter: Option<string>) {
    exists i :: 0 <= i < |hs| && FilterAt(hs, i) == filter
  }

  // Filters stay distinct and other filters keep their handlers; afterwards the filter has the
  // callback if it had a place or there was an empty one, or no place at all.
  lemma InstallingKeeps(hs: seq<Option<Handler>>, filter: string, callback: Option<nat>)
    requires FiltersDistinct(hs)
    ensures var hs' := Installing(hs, filter, callback);
            && |hs'| == |hs| && FiltersDistinct(hs')
            && (callback.None? ==> !HasFilter(hs', Some(filter)))
            && (callback.Some? ==>
                  (Some(Handler(filter, callback.value)) in hs'
                   <==> HasFilter(hs, Some(filter)) || HasFilter(hs, None)))
            && forall i :: 0 <= i < |hs| && FilterAt(hs, i).Some? && FilterAt(hs, i) != Some(filter) ==> hs'[i] == hs[i]
  {
    hide PlaceOf;
    var hs' := Installing(hs, filter, callback);
    var i := PlaceOf(hs, Some(filter));
    var at := if callback.None? || i < |hs| then i else PlaceOf(hs, None);
    assert forall j :: 0 <= j < |hs| && j != at ==> FilterAt(hs', j) == FilterAt(hs, j);
    if at < |hs| {
      assert FilterAt(hs', at) == if callback.Some? then Some(filter) else None;
      assert hs'[at] == if callback.Some? then Some(Handler(filter, callback.value)) else None;
    } else if callback.Some? {
      forall j | 0 <= j < |hs| ensures hs[j] != Some(Handler(filter, callback.value)) {
        assert FilterAt(hs, j) != Some(filter);
      }
    }
  }

  // ---------- the log ----------

  // A packet handed to sendPacket, and how many of its bytes reached the network.
  datatype Attempt = Attempt(packet: bytes, sent: nat)

  predicate Possible(a: Attempt) { a.sent <= |a.packet| }
  predicate Full(a: Attempt) { a.sent == |a.packet| }
  function Bytes(a: Attempt): bytes { if Possible(a) then a.packet[..a.sent] else [] }

  // Read: raw is what was taken off the network, kind the packet type or a result that is none,
  // mem the memory at the read buffer, stray an uninitialised identifier, reply the answer.
  datatype Happening =
    | Read(raw: bytes, kind: int, mem: bytes, stray: nat, reply: Option<Attempt>)
    | Pinged(attempt: Attempt)
    | Requested(attempt: Attempt)
    | Stored(publish: Outgoing)
    | Settled(uninitialised: nat)
    | Cleaned
    | Installed(filter: string, callback: Option<nat>)
    | DefaultSet(default: Option<nat>)

  type Log = seq<Happening>

  function In(h: Happening): bytes { if h.Read? then h.raw else [] }

  function Out(h: Happening): bytes {
    match h
    case Read(_, _, _, _, reply) => if reply.Some? then Bytes(reply.value) else []
    case Pinged(a) => Bytes(a)
    case Requested(a) => Bytes(a)
    case _ => []
  }

  function Received(log: Log): bytes { if log == [] then [] else Received(log[..|log| - 1]) + In(log[|log| - 1]) }

  function Sent(log: Log): bytes { if log == [] then [] else Sent(log[..|log| - 1]) + Out(log[|log| - 1]) }

  // The last packet, or failure to get one.
  function LastRead(log: Log): (r: Option<Happening>)
    ensures r.Some? ==> r.value.Read?
  {
    if log == [] then None
    else if log[|log| - 1].Read? then Some(log[|log| - 1])
    else LastRead(log[..|log| - 1])
  }

  // The packets that API calls sent.
  function Requests(log: Log): seq<Attempt> {
    if log == [] then []
    else Requests(log[..|log| - 1]) + if log[|log| - 1].Requested? then [log[|log| - 1].attempt] else []
  }

  // ---------- what a packet read means ----------

  function PublishOf(h: Happening): PublishIn {
    if h.Read? && h.kind == PUBLISH && Framed(h.mem, 2) then ParsePublish(h.mem) else PublishBad
  }

  // The identifier an acknowledgement names; one too short for it leaves it uninitialised.
  function AckId(mem: bytes, uninitialised: nat): Option<nat> {
    if !Framed(mem, 0) || ParseAck(mem).rc != 1 then None
    else Some(if ParseAck(mem).id.Some? then ParseAck(mem).id.value else uninitialised)
  }

  function Answer(h: Happening): Option<bytes> {
    if !h.Read? then None
    else if h.kind == PUBLISH then
      var p := PublishOf(h);
      if p == PublishBad then None
      else if p.qos == 1 then Some(AckPacket(PUBACK, 0, p.id))
      else if p.qos == 2 then Some(AckPacket(PUBREC, 0, p.id))
      else None
    else if (h.kind == PUBREC || h.kind == PUBREL) && AckId(h.mem, h.stray).Some? then
      Some(AckPacket(if h.kind == PUBREC then PUBREL else PUBCOMP, 0, AckId(h.mem, h.stray).value))
    else None
  }

  // A PUBREL counts when its answer went out in full.
  function EventOf(h: Happening): Option<Q.Event> {
    if !h.Read? then None
    else if h.kind == PUBLISH then
      var p := PublishOf(h);
      if p.PublishIn? && p.qos == 2 then Some(Q.Publish(p.id)) else None
    else if h.kind == PUBREL && AckId(h.mem, h.stray).Some? && h.reply.Some? && Full(h.reply.value) then
      Some(Q.Release(AckId(h.mem, h.stray).value))
    else None
  }

  function MessageOf(p: PublishIn): Message
    requires p.PublishIn?
  {
    Message(p.topic, p.payload, p.payloadlen, p.qos, p.id, p.dup, p.retained)
  }

  // What an incoming PUBLISH hands to the application.
  function Deliveries(table: seq<nat>, p: PublishIn): seq<Message> {
    if p == PublishBad || (p.qos == 2 && !Q.Delivers(table, Q.Publish(p.id))) then [] else [MessageOf(p)]
  }

  // ---------- the session ----------

  // mark is the number of messages delivered when the session was last cleaned.
  datatype Session = Session(recv: Q.Receiver, handlers: seq<Option<Handler>>, default: Option<nat>,
                             slot: Option<Outgoing>, messages: seq<Message>, mark: nat, calls: seq<Call>)

  function Start(places: nat): Session {
    Session(Q.Fresh(QOS2_PLACES), seq(places, _ => None), None, None, [], 0, [])
  }

  function CallsFor(s: Session, ms: seq<Message>): seq<Call> {
    if |ms| == 1 then Dispatched(s.handlers, s.default, ms[0]) else []
  }

  function Stepped(r: Q.Receiver, e: Option<Q.Event>): Q.Receiver { if e.Some? then Q.Step(r, e.value) else r }

  function Apply(s: Session, h: Happening): Session {
    match h
    case Read(_, _, _, _, _) =>
      var ms := Deliveries(s.recv.table, PublishOf(h));
      Session(Stepped(s.recv, EventOf(h)), s.handlers, s.default, s.slot, s.messages + ms, s.mark,
              s.calls + CallsFor(s, ms))
    case Pinged(_) => s
    case Requested(_) => s
    case Stored(o) => s.(slot := if o.id > 0 then Some(o) else None)
    case Settled(_) => s.(slot := None)
    case Cleaned =>
      Session(Q.Fresh(QOS2_PLACES), seq(|s.handlers|, _ => None), s.default, None, s.messages, |s.messages|, s.calls)
    case Installed(filter, callback) => s.(handlers := Installing(s.handlers, filter, callback))
    case DefaultSet(d) => s.(default := d)
  }

  function Replay(places: nat, log: Log): Session {
    if log == [] then Start(places) else Apply(Replay(places, log[..|log| - 1]), log[|log| - 1])
  }

  // ---------- logs of a real client ----------

  // raw is a header byte, a length field of k bytes and the body that the field announces, and mem
  // starts with that packet, its length in the shortest form. A field that a read error cut short
  // counts as it stands.
  predicate ReadsWith(raw: bytes, kind: int, mem: bytes, k: nat) {
    && 1 + k <= |raw| && kind == HeaderType(raw[0])
    && var d := DecodeLen(raw[1..1 + k]);
       d.used == k && |raw| == 1 + k + d.value && [raw[0]] + EncodeLen(d.value) + raw[1 + k..] <= mem
  }

  predicate ReadsAs(raw: bytes, kind: int, mem: bytes) {
    Framed(mem, 2) && exists k :: 0 <= k <= 4 && ReadsWith(raw, kind, mem, k)
  }

  predicate Genuine(h: Happening, places: nat, before: Log) {
    match h
    case Read(raw, kind, mem, _, reply) =>
      && (kind > 0 ==> ReadsAs(raw, kind, mem))
      && (if reply.Some? then Possible(reply.value) && Answer(h) == Some(reply.value.packet) else Answer(h) == None)
    case Pinged(a) => Possible(a) && a.packet == PingPacket()
    case Requested(a) => Possible(a)
    case Settled(u) =>
      // the packet last read acknowledges the stored publish
      var s, r := Replay(places, before).slot, LastRead(before);
      && s.Some? && r.Some? && (r.value.kind == PUBACK || r.value.kind == PUBCOMP)
      && AckId(r.value.mem, u) == Some(s.value.id)
    case _ => true
  }

  predicate AllGenuine(places: nat, log: Log) {
    log == [] || (AllGenuine(places, log[..|log| - 1]) && Genuine(log[|log| - 1], places, log[..|log| - 1]))
  }

  // Of a stream that starts with a complete packet that packet and no more is taken, or it is found
  // too long for a buffer of that size.
  predicate TakesFront(raw: bytes, kind: int, mem: bytes, s: bytes, max: nat) {
    PacketReader.Complete(s) ==>
      var o := PacketReader.BlockingOut(s, max);
      && o.consumed <= |s| && raw == s[..o.consumed] && kind == (if o.rc < 0 then BUFFER_OVERFLOW else o.rc)
      && o.filled <= mem
  }

  predicate ReadsFront(h: Happening, s: bytes, max: nat) { h.Read? ==> TakesFront(h.raw, h.kind, h.mem, s, max) }

  // Every packet was read off the front of what was left of the stream s.
  predicate AllFront(s: bytes, log: Log, max: nat) {
    log == [] ||
    var before := log[..|log| - 1];
    AllFront(s, before, max) && |Received(before)| <= |s| && ReadsFront(log[|log| - 1], s[|Received(before)|..], max)
  }

  lemma FrontSnoc(s: bytes, log: Log, h: Happening, max: nat)
    requires |Received(log)| <= |s|
    ensures AllFront(s, log + [h], max) <==> AllFront(s, log, max) && ReadsFront(h, s[|Received(log)|..], max)
  {
    hide ReadsFront;
    assert (log + [h])[..|log|] == log;
  }

  lemma {:induction false} FrontAt(s: bytes, log: Log, max: nat, i: nat)
    requires AllFront(s, log, max) && i < |log|
    ensures |Received(log[..i])| <= |s| && ReadsFront(log[i], s[|Received(log[..i])|..], max)
  {
    hide ReadsFront;
    if i < |log| - 1 {
      FrontAt(s, log[..|log| - 1], max, i);
      assert log[..|log| - 1][..i] == log[..i];
    }
  }

  lemma Snoc(places: nat, log: Log, h: Happening)
    ensures Replay(places, log + [h]) == Apply(Replay(places, log), h)
    ensures Sent(log + [h]) == Sent(log) + Out(h) && Received(log + [h]) == Received(log) + In(h)
    ensures LastRead(log + [h]) == if h.Read? then Some(h) else LastRead(log)
    ensures Requests(log + [h]) == Requests(log) + if h.Requested? then [h.attempt] else []
    ensures AllGenuine(places, log + [h]) <==> AllGenuine(places, log) && Genuine(h, places, log)
  {
    hide Apply, Genuine, Out, In;
    assert (log + [h])[..|log|] == log;
  }

  lemma ReplayStep(places: nat, log: Log, i: nat)
    requires i < |log|
    ensures Replay(places, log[..i + 1]) == Apply(Replay(places, log[..i]), log[i])
  {
    assert log[..i + 1][..i] == log[..i];
  }

  lemma ApplyRecv(s: Session, h: Happening)
    ensures h != Cleaned ==> Apply(s, h).recv == Stepped(s.recv, EventOf(h))
    ensures EventOf(h).Some? ==> h.Read?
    ensures !TouchesSlot(h) ==> Apply(s, h).slot == s.slot
    ensures h == Cleaned ==> Apply(s, h).slot == None
    ensures h.Read? || h.Requested? ==> Apply(s, h).handlers == s.handlers
  {
  }

  lemma {:induction false} GenuineAt(places: nat, log: Log, i: nat)
    requires AllGenuine(places, log) && i < |log|
    ensures Genuine(log[i], places, log[..i]) && AllGenuine(places, log[..i])
  {
    hide Genuine;
    if i < |log| - 1 {
      GenuineAt(places, log[..|log| - 1], i);
      assert log[..|log| - 1][..i] == log[..i];
    }
  }

  // ---------- QoS 2: at most once ----------

  // The QoS 2 identifiers among messages.
  function Qos2Ids(ms: seq<Message>): seq<nat> {
    if ms == [] then []
    else Qos2Ids(ms[..|ms| - 1]) + if ms[|ms| - 1].qos == 2 then [ms[|ms| - 1].id] else []
  }

  lemma NoIds()
    ensures Qos2Ids([]) == []
  {
  }

  lemma Qos2IdsSnoc(ms: seq<Message>, mark: nat, m: Message)
    requires mark <= |ms|
    ensures Qos2Ids((ms + [m])[mark..]) == Qos2Ids(ms[mark..]) + if m.qos == 2 then [m.id] else []
  {
    assert (ms + [m])[mark..] == ms[mark..] + [m];
    assert (ms[mark..] + [m])[..|ms[mark..]|] == ms[mark..];
  }

  // The receiver keeps its law, and its deliveries are the QoS 2 messages that the application got
  // since the session was last cleaned.
  ghost predicate Lawful(s: Session) {
    && Q.Lawful(s.recv) && |s.recv.table| == QOS2_PLACES
    && s.mark <= |s.messages| && s.recv.delivered == Qos2Ids(s.messages[s.mark..])
  }

  lemma ApplyLawful(s: Session, h: Happening)
    requires Lawful(s)
    ensures Lawful(Apply(s, h))
  {
    hide Q.Lawful, CallsFor, Q.Use, Q.Free, ParsePublish, AckId, Qos2Ids, Framed;
    if h.Read? {
      if EventOf(h).Some? {
        Q.StepLawful(s.recv, EventOf(h).value);
      }
      var ms := Deliveries(s.recv.table, PublishOf(h));
      if ms != [] {
        Qos2IdsSnoc(s.messages, s.mark, ms[0]);
        assert s.recv.delivered + [] == s.recv.delivered;
      } else {
        assert s.messages + [] == s.messages;
      }
    } else if h.Cleaned? {
      Q.FreshLawful(QOS2_PLACES);
      assert s.messages[|s.messages|..] == [];
      NoIds();
    }
  }

  lemma {:induction false} ReplayLawful(places: nat, log: Log)
    ensures Lawful(Replay(places, log))
  {
    hide Apply, Lawful;
    if log == [] {
      StartLawful(places);
    } else {
      ReplayLawful(places, log[..|log| - 1]);
      ApplyLawful(Replay(places, log[..|log| - 1]), log[|log| - 1]);
    }
  }

  lemma StartLawful(places: nat)
    ensures Lawful(Start(places))
  {
    Q.FreshLawful(QOS2_PLACES);
  }

  // Entry i of the log hands the QoS 2 message id to the application.
  predicate DeliversAt(places: nat, log: Log, i: nat, id: nat) {
    && i < |log| && EventOf(log[i]) == Some(Q.Publish(id))
    && Q.Delivers(Replay(places, log[..i]).recv.table, Q.Publish(id))
  }

  // Entry i is a PUBREL for id, read from the network and answered in full with PUBCOMP.
  predicate ReleasesAt(log: Log, i: nat, id: nat) {
    && i < |log| && log[i].Read? && log[i].kind == PUBREL && AckId(log[i].mem, log[i].stray) == Some(id)
    && log[i].reply.Some? && log[i].reply.value == Attempt(AckPacket(PUBCOMP, 0, id), 4)
  }

  lemma {:induction false} StaysInTable(places: nat, log: Log, id: nat, from: nat, to: nat)
    requires from <= to <= |log| && id != 0 && id in Replay(places, log[..from]).recv.table
    requires forall k :: from <= k < to ==> log[k] != Cleaned && EventOf(log[k]) != Some(Q.Release(id))
    ensures id in Replay(places, log[..to]).recv.table
  {
    hide EventOf, Apply, Replay, Q.Step;
    if from < to {
      StaysInTable(places, log, id, from, to - 1);
      ReplayStep(places, log, to - 1);
      var s, h := Replay(places, log[..to - 1]), log[to - 1];
      ApplyRecv(s, h);
      if EventOf(h).Some? {
        Q.StepKeeps(s.recv, EventOf(h).value, id);
      }
    }
  }

  // Two deliveries of one identifier, without cleaning between them, have a PUBREL for it between
  // them that was answered; and identifier 0 is never delivered.
  lemma AtMostOnce(places: nat, log: Log, i: nat, j: nat, id: nat)
    requires AllGenuine(places, log) && i < j && DeliversAt(places, log, i, id) && DeliversAt(places, log, j, id)
    requires forall k :: i < k < j ==> log[k] != Cleaned
    ensures id != 0 && exists k :: i < k < j && ReleasesAt(log, k, id)
  {
    hide Q.Lawful, AllGenuine, Genuine, EventOf, Q.Use, ReleasesAt, Apply, Replay;
    if forall k :: i < k < j ==> EventOf(log[k]) != Some(Q.Release(id)) {
      var s := Replay(places, log[..i]);
      ReplayStep(places, log, i);
      ApplyRecv(s, log[i]);
      Q.UsedIn(s.recv.table, id);
      StaysInTable(places, log, id, i + 1, j);
      assert false;
    }
    var k :| i < k < j && EventOf(log[k]) == Some(Q.Release(id));
    ReleaseIsRead(places, log, k, id);
  }

  lemma ReleaseIsRead(places: nat, log: Log, k: nat, id: nat)
    requires AllGenuine(places, log) && k < |log| && EventOf(log[k]) == Some(Q.Release(id))
    ensures ReleasesAt(log, k, id)
  {
    hide AllGenuine;
    GenuineAt(places, log, k);
    var h := log[k];
    assert Answer(h) == Some(AckPacket(PUBCOMP, 0, id));
  }

  // A packet that came whole and was answered in full.
  function Arrival(kind: int, packet: bytes, answer: bytes): Happening {
    Read(packet, kind, packet + [0, 0], 0, Some(Attempt(answer, |answer|)))
  }

  lemma ArrivalReads(header: byte, body: bytes)
    requires |body| <= MAX_REMAINING
    ensures ReadsAs(Packet(header, body), HeaderType(header), Packet(header, body) + [0, 0])
  {
    hide EncodeLen, DecodeLen, HeaderType, Framed;
    var p, k := Packet(header, body), |EncodeLen(|body|)|;
    PacketFramed(header, body, [0, 0]);
    RemainingLengthRoundTrip(|body|, []);
    assert EncodeLen(|body|) + [] == EncodeLen(|body|);
    assert p[1..1 + k] == EncodeLen(|body|) && p[1 + k..] == body;
    assert ReadsWith(p, HeaderType(header), p + [0, 0], k);
  }

  // Every identifier is delivered, and delivered again once it was released.
  lemma DeliveredAgain(places: nat, id: nat, topic: bytes, payload: bytes)
    requires 0 < id < 65536 && |topic| < 65536 && |PublishBody(2, id, topic, payload)| <= MAX_REMAINING
    ensures var publish := Arrival(PUBLISH, PublishPacket(0, 2, 0, id, topic, payload), AckPacket(PUBREC, 0, id));
            var release := Arrival(PUBREL, AckPacket(PUBREL, 0, id), AckPacket(PUBCOMP, 0, id));
            var log := [publish, release, publish];
            && AllGenuine(places, log)
            && DeliversAt(places, log, 0, id) && ReleasesAt(log, 1, id) && DeliversAt(places, log, 2, id)
  {
    hide PublishPacket, PublishBody, AckPacket, ReadsAs, Framed, ParsePublish, ParseAck, AllGenuine, Replay, Apply;
    var publish := Arrival(PUBLISH, PublishPacket(0, 2, 0, id, topic, payload), AckPacket(PUBREC, 0, id));
    var release := Arrival(PUBREL, AckPacket(PUBREL, 0, id), AckPacket(PUBCOMP, 0, id));
    PublishArrives(id, topic, payload);
    ReleaseArrives(id);
    var log := [publish, release, publish];
    assert log == [] + [publish] + [release] + [publish];
    Snoc(places, [], publish);
    Snoc(places, [] + [publish], release);
    Snoc(places, [] + [publish] + [release], publish);
    Beginning(places);
    ReplayStep(places, log, 0);
    ReplayStep(places, log, 1);
    assert log[..0] == [];
    ApplyRecv(Start(places), publish);
    ApplyRecv(Apply(Start(places), publish), release);
    Q.UseThenFree(QOS2_PLACES, id);
  }

  lemma Beginning(places: nat)
    ensures Replay(places, []) == Start(places) && AllGenuine(places, [])
  {
  }

  lemma PublishArrives(id: nat, topic: bytes, payload: bytes)
    requires 0 < id < 65536 && |topic| < 65536 && |PublishBody(2, id, topic, payload)| <= MAX_REMAINING
    ensures var h := Arrival(PUBLISH, PublishPacket(0, 2, 0, id, topic, payload), AckPacket(PUBREC, 0, id));
            && ReadsAs(h.raw, h.kind, h.mem)
            && EventOf(h) == Some(Q.Publish(id)) && Answer(h) == Some(AckPacket(PUBREC, 0, id))
  {
    hide PublishBody, AckPacket, ReadsAs, HeaderByte, HeaderType, Framed, ParsePublish;
    ArrivalReads(HeaderByte(PUBLISH, 0, 2, 0), PublishBody(2, id, topic, payload));
    HeaderRoundTrip(PUBLISH, 0, 2, 0);
    PublishRoundTrip(0, 2, 0, id, topic, payload, [0, 0]);
  }

  lemma ReleaseArrives(id: nat)
    requires id < 65536
    ensures var h := Arrival(PUBREL, AckPacket(PUBREL, 0, id), AckPacket(PUBCOMP, 0, id));
            && ReadsAs(h.raw, h.kind, h.mem) && AckId(h.mem, 0) == Some(id)
            && EventOf(h) == Some(Q.Release(id)) && Answer(h) == Some(AckPacket(PUBCOMP, 0, id))
  {
    hide ReadsAs, HeaderByte, HeaderType, Framed, ParseAck, U16;
    ArrivalReads(HeaderByte(PUBREL, 0, 1, 0), U16(id));
    HeaderRoundTrip(PUBREL, 0, 1, 0);
    AckRoundTrip(PUBREL, 0, id, [0, 0]);
  }

  // The filters of the handler table are always distinct.
  lemma {:induction false} HandlersDistinct(places: nat, log: Log)
    ensures FiltersDistinct(Replay(places, log).handlers) && |Replay(places, log).handlers| == places
  {
    hide Installing, EventOf, Deliveries, CallsFor;
    if log != [] {
      HandlersDistinct(places, log[..|log| - 1]);
      var s, h := Replay(places, log[..|log| - 1]), log[|log| - 1];
      if h.Installed? {
        InstallingKeeps(s.handlers, h.filter, h.callback);
      }
    }
  }

  // ---------- the stored publish ----------

  predicate TouchesSlot(h: Happening) { h.Stored? || h.Settled? || h.Cleaned? }

  // Only a newer publish, an acknowledgement or cleaning changes the stored publish.
  lemma {:induction false} SlotKept(places: nat, log: Log, i: nat, j: nat)
    requires i <= j <= |log| && forall k :: i <= k < j ==> !TouchesSlot(log[k])
    ensures Replay(places, log[..j]).slot == Replay(places, log[..i]).slot
  {
    hide Apply, Replay;
    if i < j {
      SlotKept(places, log, i, j - 1);
      ReplayStep(places, log, j - 1);
      ApplyRecv(Replay(places, log[..j - 1]), log[j - 1]);
    }
  }

  // The acknowledgement that emptied it named its identifier and was the last packet read.
  lemma SettledByAck(places: nat, log: Log, i: nat)
    requires AllGenuine(places, log) && i < |log| && log[i].Settled?
    ensures var s, r := Replay(places, log[..i]).slot, LastRead(log[..i]);
            && s.Some? && Replay(places, log[..i + 1]).slot == None
            && r.Some? && (r.value.kind == PUBACK || r.value.kind == PUBCOMP)
            && AckId(r.value.mem, log[i].uninitialised) == Some(s.value.id)
  {
    hide AllGenuine, Replay;
    GenuineAt(places, log, i);
    ReplayStep(places, log, i);
  }
}
