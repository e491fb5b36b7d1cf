/**
What each call of the client's API may do, told on logs: which packets it sends, which happenings may
follow them, and what its result says about them. A run of the client is a sequence of such calls.
*/
module SessionRuns {
  import opened Basics
  import opened Wire
  import opened Publish
  import opened SessionLog
  import PacketReader
  import opened WireImage
  import C = Connect
  import S = Subscriptions

  const SUBACK := 9
  const UNSUBACK := 11
  const DISCONNECT := 14

  datatype Api =
    | DoConnect(options: C.ConnectData)
    | DoPublish(topic: bytes, payload: bytes, id: nat, qos: nat, retained: bool)
    | DoSubscribe(filter: bytes, qos: nat, callback: Option<nat>)
    | DoUnsubscribe(filter: bytes)
    | DoYield
    | DoDisconnect
    | DoSetHandler(topicFilter: string, handler: Option<nat>)
    | DoSetDefault(handler: Option<nat>)

  // What the calls need of their arguments.
  predicate Allowed(a: Api) {
    match a
    case DoConnect(o) => C.Usable(o)
    case DoPublish(_, _, id, qos, _) => id < 65536 && qos < 3
    case _ => true
  }

  // A client between two calls, and its network: what there is to receive, whether sending and
  // receiving are faultless from here on, and how often the timers will allow more time.
  datatype State = State(log: Log, connected: bool, clean: bool, nextId: nat, rx: bytes, calm: bool, patience: nat)

  // After a packet of that length there is time to wait for its answer.
  predicate Enough(s: State, length: nat) { s.calm && s.patience >= length + 3 }

  // PacketId::getNext
  function NextId(n: nat): nat { if n == 65535 then 1 else n + 1 }

  // The identifiers handed out next, from any state of the counter.
  function IdAfter(n: nat, k: nat): nat { if k == 0 then n else NextId(IdAfter(n, k - 1)) }

  // They run through 1..65535 and start again, so none comes twice among 65535 in a row.
  lemma {:induction false} IdsRunRound(n: nat, k: nat)
    requires n < 65536 && k > 0
    ensures IdAfter(n, k) == (n + k - 1) % 65535 + 1
  {
    if k > 1 {
      IdsRunRound(n, k - 1);
      var q, r := (n + k - 2) / 65535, (n + k - 2) % 65535;
      assert n + k - 1 == q * 65535 + (r + 1);
      if r + 1 == 65535 {
        assert n + k - 1 == (q + 1) * 65535;
      }
    } else {
      assert IdAfter(n, 0) == n;
    }
  }

  lemma IdsDiffer(n: nat, j: nat, k: nat)
    requires n < 65536 && 0 < j < k < j + 65535
    ensures IdAfter(n, j) != IdAfter(n, k)
  {
    IdsRunRound(n, j);
    IdsRunRound(n, k);
    var x, y := n + j - 1, n + k - 1;
    var a, b := x / 65535, y / 65535;
    assert x % 65535 == y % 65535 ==> k - j == (b - a) * 65535;
  }

  // A publish with its identifier: the next one, or for QoS 0 the caller's.
  function Numbered(nextId: nat, topic: bytes, payload: bytes, id: nat, qos: nat, retained: bool): Outgoing {
    Outgoing(topic, payload, qos, if retained then 1 else 0, if qos > 0 then NextId(nextId) else id)
  }

  function DisconnectPacket(): bytes { Packet(HeaderByte(DISCONNECT, 0, 0, 0), []) }

  // Section 3.14.
  lemma DisconnectImage()
    ensures DisconnectPacket() == [224, 0]
  {
    ShortImage(HeaderByte(DISCONNECT, 0, 0, 0), []);
  }

  function SubscribePacket(withQos: bool, id: nat, filter: bytes, qos: int): bytes {
    S.RequestPacket(withQos, 0, id, [S.Request(filter, qos)])
  }

  // ---------- happenings that need no call ----------

  predicate Background(h: Happening) { h.Read? || h.Pinged? || h.Cleaned? }

  predicate Idle(log: Log) { forall i :: 0 <= i < |log| ==> Background(log[i]) }

  // After a publish went out, its acknowledgement may settle it.
  predicate Trailing(log: Log) { forall i :: 0 <= i < |log| ==> Background(log[i]) || log[i].Settled? }

  // After a subscription went out, its handler may be installed or removed.
  predicate Subscribing(log: Log, filter: string, callback: Option<nat>) {
    forall i :: 0 <= i < |log| ==> Background(log[i]) || log[i] == Installed(filter, callback)
  }

  function Cleaning(clean: bool): Log { if clean then [Cleaned] else [] }

  predicate EndsClean(log: Log, clean: bool) { clean ==> log != [] && log[|log| - 1] == Cleaned }

  // A packet that calls for nothing at once, a PINGRESP, or none at all.
  predicate Calm(kind: int) { Benign(kind) || kind == 13 || kind == 0 }

  // A packet that calls for nothing at once.
  predicate Benign(kind: int) {
    kind == CONNACK || kind == PUBACK || kind == PUBCOMP || kind == SUBACK || kind == UNSUBACK
  }

  // The stream starts with a packet of that kind, which fits.
  predicate AtHand(s: bytes, kind: int, max: nat) {
    PacketReader.Complete(s) && PacketReader.BlockingOut(s, max).rc == kind > 0
  }

  // ---------- what was read last ----------

  function AckKind(qos: nat): int { if qos == 1 then PUBACK else PUBCOMP }

  predicate Acked(r: Option<Happening>, qos: nat) {
    r.Some? && r.value.Read? && r.value.kind == AckKind(qos) && AckId(r.value.mem, 0).Some?
  }

  // It carries the identifier itself.
  predicate Names(r: Option<Happening>, id: nat) {
    && r.Some? && r.value.Read? && Framed(r.value.mem, 0)
    && ParseAck(r.value.mem).rc == 1 && ParseAck(r.value.mem).id == Some(id)
  }

  // MQTTDeserialize_connack, with the code that connect makes of it: one too short for a code
  // counts as accepting.
  function ConnackCode(mem: bytes): int
    requires Framed(mem, 0)
  {
    var b := Body(mem);
    if |b| >= 2 then b[1] else if DecodeLen(mem[1..]).len == 1 then 0 else FAILURE
  }

  predicate Accepted(r: Option<Happening>) {
    r.Some? && r.value.Read? && r.value.kind == CONNACK && Framed(r.value.mem, 0) && ConnackCode(r.value.mem) == 0
  }

  // MQTTDeserialize_suback for one code, with what subscribe makes of it: the handler is installed
  // unless the code, as a char, is 0x80 or there are more than two codes.
  predicate SubackInstalls(mem: bytes, signedChar: bool)
    requires Framed(mem, 0)
  {
    var b := Body(mem);
    if |b| < 2 then DecodeLen(mem[1..]).len == 1
    else |b| == 2 || (|b| < 5 && S.CharValue(signedChar, b[2]) != 0x80)
  }

  // The handler is installed or removed as the packet read last says.
  predicate Installs(log: Log, withQos: bool, signedChar: bool) {
    && LastRead(log).Some? && Framed(LastRead(log).value.mem, 0)
    && (withQos ==> SubackInstalls(LastRead(log).value.mem, signedChar))
  }

  // The answer to a subscription was read, and the handler dealt with as it says.
  predicate Confirmed(log: Log, withQos: bool, filter: string, callback: Option<nat>, signedChar: bool) {
    && ReadLast(log, if withQos then SUBACK else UNSUBACK)
    && (Installed(filter, callback) in log <==> Installs(log, withQos, signedChar))
  }

  predicate ReadLast(log: Log, kind: int) { LastRead(log).Some? && LastRead(log).value.kind == kind }

  // ---------- the calls ----------

  // Nothing but the network's packets, and their answers; a session is cleaned only as it ends.
  predicate Waited(s: State, t: State) {
    && s.log <= t.log && Idle(t.log[|s.log|..])
    && t.clean == s.clean && t.nextId == s.nextId && (t.connected ==> s.connected)
    && (Cleaned in t.log[|s.log|..] ==> s.connected && s.clean && !t.connected)
  }

  // While there is time packets are read, first the one at hand.
  predicate Yielded(s: State, t: State, rc: int, max: nat) {
    && Waited(s, t) && (rc == SUCCESS || rc == FAILURE)
    && (s.patience > 0 ==>
          |t.log| > |s.log| && t.log[|s.log|].Read? && (s.calm ==> ReadsFront(t.log[|s.log|], s.rx, max)))
  }

  // The packet goes out, then its acknowledgement is waited for.
  predicate PublishSent(more: Log, packet: bytes, qos: nat, rc: int) {
    && |more| >= 1 && more[0].Requested? && more[0].attempt.packet == packet && Trailing(more[1..])
    && (rc == SUCCESS || rc == FAILURE)
    && (rc == SUCCESS ==> Full(more[0].attempt) && (qos > 0 ==> Acked(LastRead(more), qos)))
    && (qos == 0 && Full(more[0].attempt) ==> rc == SUCCESS && |more| == 1)
  }

  // The acknowledgement that a publish of QoS 1 or 2 waits for is at hand.
  predicate AckAtHand(s: bytes, qos: nat, id: nat) {
    qos > 0 ==>
      |s| >= 4 && s[0] == (if qos == 1 then 64 else 112) && s[1] == 2 && s[2] == id / 256 && s[3] == id % 256
  }

  function AfterAck(s: bytes, qos: nat): bytes { if qos > 0 && |s| >= 4 then s[4..] else s }

  predicate Published(s: State, t: State, rc: int, o: Outgoing, places: nat, max: nat) {
    if !s.connected then t == s && rc == FAILURE
    else
      && s.log <= t.log && t.clean == s.clean
      && t.nextId == (if o.qos > 0 then NextId(s.nextId) else s.nextId)
      && (o.qos > 0 ==> o.id == t.nextId)
      && if PacketLen(|PublishBody(o.qos, o.id, o.topic, o.payload)|) > max then
           t.log == s.log && t.connected && rc == FAILURE
         else
           var more := t.log[|s.log|..];
           var stored := if s.clean then [] else [Stored(o)];
           && stored <= more && PublishSent(more[|stored|..], OutgoingPacket(o), o.qos, rc)
           && (rc == FAILURE ==> !t.connected && EndsClean(more, s.clean))
           && (rc == SUCCESS && o.qos > 0 && !s.clean && Names(LastRead(more), o.id) ==>
                 Replay(places, t.log).slot == None)
           && (Enough(s, |OutgoingPacket(o)|) && AckAtHand(s.rx, o.qos, o.id) ==>
                 && rc == SUCCESS && t.connected && t.rx == AfterAck(s.rx, o.qos)
                 && (o.qos > 0 && !s.clean ==> Replay(places, t.log).slot == None))
  }

  // The stored publish goes out again at position k, whatever was read before it.
  predicate ResentAt(more: Log, k: nat, o: Outgoing, rc: int) {
    && 0 < k < |more| && Idle(more[1..k]) && Cleaned !in more[..k]
    && PublishSent(more[k..], OutgoingPacket(o), o.qos, rc)
  }

  // A CONNACK is at hand, of whatever length fits.
  predicate ConnackAtHand(s: bytes, max: nat) {
    |s| >= 2 && s[0] == 32 && s[1] < 128 && 2 + s[1] <= |s| && 2 + s[1] <= max
  }

  function AfterConnack(s: bytes): bytes { if |s| >= 2 && 2 + s[1] <= |s| then s[2 + s[1]..] else s }

  // Its second byte, if it has one, is the code; 0 accepts.
  function CodeAtHand(s: bytes): int { if |s| >= 4 && s[1] >= 2 then s[3] else 0 }

  ghost predicate Connected(s: State, t: State, rc: int, o: C.ConnectData, places: nat, max: nat) {
    if s.connected then t == s && rc == FAILURE
    else
      && s.log <= t.log && t.nextId == s.nextId && t.clean == (o.cleansession != 0) && (t.connected <==> rc == SUCCESS)
      && if PacketLen(C.ConnectLength(o)) > max then t.log == s.log && rc == FAILURE
         else
           var more := t.log[|s.log|..];
           && |more| >= 1 && more[0].Requested? && more[0].attempt.packet == C.ConnectPacket(o)
           && (Heard(s, Replay(places, s.log).slot, |C.ConnectPacket(o)|, max) ==>
                 && rc == (if Replay(places, s.log).slot.None? then CodeAtHand(s.rx) else SUCCESS)
                 && t.rx == AfterHearing(s.rx, Replay(places, s.log).slot))
           && if !Full(more[0].attempt) then |more| == 1 && rc == FAILURE
              else
                var slot := Replay(places, s.log).slot;
                if slot.Some? then exists k: nat :: ResentAt(more, k, slot.value, rc)
                else Idle(more[1..]) && Cleaned !in more && (rc == SUCCESS ==> Accepted(LastRead(more)))
  }

  // CONNECT, of that length, will be answered, and the stored publish if there is one acknowledged.
  predicate Heard(s: State, slot: Option<Outgoing>, length: nat, max: nat) {
    && ConnackAtHand(s.rx, max)
    && if slot.None? then Enough(s, length)
       else
         && Enough(s, length + 3 + |OutgoingPacket(slot.value)|)
         && AckAtHand(AfterConnack(s.rx), slot.value.qos, slot.value.id)
  }

  function AfterHearing(s: bytes, slot: Option<Outgoing>): bytes {
    if slot.None? then AfterConnack(s) else AfterAck(AfterConnack(s), slot.value.qos)
  }

  // The answer to a SUBSCRIBE or UNSUBSCRIBE is at hand.
  predicate SubackAtHand(s: bytes, withQos: bool, id: nat) {
    if withQos then |s| >= 5 && s[0] == 144 && s[1] == 3 && s[2] == id / 256 && s[3] == id % 256
    else |s| >= 4 && s[0] == 176 && s[1] == 2 && s[2] == id / 256 && s[3] == id % 256
  }

  function AfterSuback(s: bytes, withQos: bool): bytes {
    if withQos && |s| >= 5 then s[5..] else if !withQos && |s| >= 4 then s[4..] else s
  }

  // The code at hand refuses, and the client can see it: a signed char is never 128.
  predicate Refuses(s: bytes, withQos: bool, signedChar: bool) { withQos && !signedChar && |s| >= 5 && s[4] == 128 }

  // There is a place for the handler, or nothing to place.
  predicate HasPlace(hs: seq<Option<Handler>>, filter: string, callback: Option<nat>) {
    PlaceOf(hs, Some(filter)) < |hs| || (callback.Some? && PlaceOf(hs, None) < |hs|)
  }

  predicate Subscribed(s: State, t: State, rc: int, withQos: bool, filter: bytes, qos: nat, callback: Option<nat>,
                       places: nat, max: nat, signedChar: bool) {
    && s.log <= t.log && t.clean == s.clean && (t.connected ==> s.connected)
    && var more := t.log[|s.log|..];
       && (rc == FAILURE ==> !t.connected && EndsClean(more, s.clean))
       && if !s.connected then rc == FAILURE && t.nextId == s.nextId && more == Cleaning(s.clean)
          else
            && t.nextId == NextId(s.nextId)
            && if PacketLen(|S.Body(withQos, t.nextId, [S.Request(filter, qos)])|) > max then
                 rc == FAILURE && more == Cleaning(s.clean)
               else
                 && |more| >= 1 && more[0].Requested?
                 && more[0].attempt.packet == SubscribePacket(withQos, t.nextId, filter, qos)
                 && Subscribing(more[1..], Chars(filter), callback)
                 && (rc != FAILURE ==>
                       Full(more[0].attempt) && Confirmed(more, withQos, Chars(filter), callback, signedChar))
                 && (Enough(s, |SubscribePacket(withQos, t.nextId, filter, qos)|)
                     && SubackAtHand(s.rx, withQos, t.nextId)
                     && (withQos ==> HasPlace(Replay(places, s.log).handlers, Chars(filter), callback)) ==>
                       && rc == SUCCESS && t.connected && t.rx == AfterSuback(s.rx, withQos)
                       && (Installed(Chars(filter), callback) in more <==> !Refuses(s.rx, withQos, signedChar)))
  }

  predicate Disconnected(s: State, t: State) {
    && s.log < t.log && t.clean == s.clean && t.nextId == s.nextId && !t.connected
    && var h := t.log[|s.log|];
       h.Requested? && h.attempt.packet == DisconnectPacket() && t.log == s.log + [h] + Cleaning(s.clean)
  }

  // The effect of a call on a client with that many handler places and that size of buffers.
  ghost predicate Outcome(a: Api, rc: int, s: State, t: State, places: nat, max: nat, signedChar: bool) {
    match a
    case DoConnect(o) => Connected(s, t, rc, o, places, max)
    case DoPublish(topic, payload, id, qos, retained) =>
      Published(s, t, rc, Numbered(s.nextId, topic, payload, id, qos, retained), places, max)
    case DoSubscribe(filter, qos, callback) =>
      Subscribed(s, t, rc, true, filter, qos, callback, places, max, signedChar)
    case DoUnsubscribe(filter) => Subscribed(s, t, rc, false, filter, 0, None, places, max, signedChar)
    case DoYield => Yielded(s, t, rc, max)
    case DoDisconnect => Disconnected(s, t)
    case DoSetHandler(filter, callback) => t == s.(log := s.log + [Installed(filter, callback)])
    case DoSetDefault(callback) => t == s.(log := s.log + [DefaultSet(callback)])
  }

  // ---------- what goes out, in bytes ----------

  // A call that sends something, with arguments that the format can carry.
  predicate Speaks(s: State, a: Api) {
    && s.nextId < 65536
    && match a
       case DoConnect(o) => !s.connected && C.Usable(o) && Sendable(o) && |ConnectBytes(o)| <= 268435455
       case DoPublish(topic, payload, id, qos, _) =>
         && s.connected && qos < 3 && id < 65536 && |topic| < 65536
         && 2 + |topic| + (if qos > 0 then 2 else 0) + |payload| <= 268435455
       case DoSubscribe(filter, qos, _) => s.connected && |filter| < 65536 && qos < 256
       case DoUnsubscribe(filter) => s.connected && |filter| < 65536
       case DoDisconnect => true
       case _ => false
  }

  // Its packet. Identifiers run through 1..65535.
  function Spoken(s: State, a: Api): bytes
    requires Speaks(s, a)
  {
    var id := s.nextId % 65535 + 1;
    match a
    case DoConnect(o) => Image(16, ConnectBytes(o))
    case DoPublish(topic, payload, given, qos, retained) =>
      PublishBytes(0, qos, if retained then 1 else 0, if qos > 0 then id else given, topic, payload)
    case DoSubscribe(filter, qos, _) => Image(130, Int(id) + Str(filter) + [qos])
    case DoUnsubscribe(filter) => Image(162, Int(id) + Str(filter))
    case DoDisconnect => [224, 0]
  }

  // p is sent first, after what is stored, if it fits the buffer; one that does not is not sent.
  // The buffer may have to have room for one byte more.
  predicate SentFirst(p: bytes, storing: bool, rc: int, more: Log, max: nat) {
    var k := if storing then 1 else 0;
    && (|p| < max ==>
          && |more| > k && more[k].Requested? && more[k].attempt.packet == p
          && (storing ==> more[0].Stored? && OutgoingPacket(more[0].publish) == p))
    && (|p| > max ==> rc == FAILURE && forall i :: 0 <= i < |more| ==> more[i] == Cleaned)
  }

  // Each call sends its packet; a publish of a kept session is stored before.
  lemma CallBytes(a: Api, rc: int, s: State, t: State, places: nat, max: nat, signedChar: bool)
    requires Outcome(a, rc, s, t, places, max, signedChar) && Speaks(s, a) && max >= 2
    ensures s.log <= t.log && SentFirst(Spoken(s, a), a.DoPublish? && !s.clean, rc, t.log[|s.log|..], max)
  {
    hide Replay, PacketLen, ConnectBytes, Sendable, C.Usable, C.ConnectLength, C.ConnectPacket, Image, PublishBytes,
         PublishBody, PublishPacket, SubscribePacket, S.Body, Str, Int, Heard, ResentAt, Subscribing, Confirmed, Chars,
         Idle, Trailing, LastRead, EndsClean, Enough, SubackAtHand, HasPlace, Refuses, AckAtHand, Acked, Accepted, Full,
         DisconnectPacket;
    match a
    case DoConnect(o) => ConnectOut(o);
    case DoPublish(topic, payload, id, qos, retained) =>
      PublishOut(qos, if retained then 1 else 0, if qos > 0 then NextId(s.nextId) else id, topic, payload);
    case DoSubscribe(filter, qos, _) => RequestOut(true, filter, qos, NextId(s.nextId));
    case DoUnsubscribe(filter) => RequestOut(false, filter, 0, NextId(s.nextId));
    case DoDisconnect => DisconnectImage();
  }

  lemma PacketSize(header: byte, body: bytes)
    requires |body| <= 268435455
    ensures |Packet(header, body)| <= PacketLen(|body|) <= |Packet(header, body)| + 1
  {
    hide EncodeLen, PacketLen;
    PacketLenExact(|body|);
  }

  lemma ConnectOut(o: C.ConnectData)
    requires C.Usable(o) && Sendable(o) && |ConnectBytes(o)| <= 268435455
    ensures C.ConnectPacket(o) == Image(16, ConnectBytes(o))
    ensures |C.ConnectPacket(o)| <= PacketLen(C.ConnectLength(o)) <= |C.ConnectPacket(o)| + 1
  {
    hide C.ConnectBody, ConnectBytes, HeaderByte, C.ConnectLength, PacketLen, Packet, Image;
    ConnectImage(o);
    ConnectBodyImage(o);
    C.ConnectLengthExact(o);
    PacketSize(HeaderByte(C.CONNECT, 0, 0, 0), C.ConnectBody(o));
  }

  lemma PublishOut(qos: nat, retained: nat, id: nat, topic: bytes, payload: bytes)
    requires qos < 3 && retained < 2 && id < 65536 && |topic| < 65536
    requires 2 + |topic| + (if qos > 0 then 2 else 0) + |payload| <= 268435455
    ensures var p := PublishPacket(0, qos, retained, id, topic, payload);
            && p == PublishBytes(0, qos, retained, id, topic, payload)
            && |p| <= PacketLen(|PublishBody(qos, id, topic, payload)|) <= |p| + 1
  {
    hide HeaderByte, PacketLen, Packet, Image, PublishBytes;
    PublishImage(0, qos, retained, id, topic, payload);
    PacketSize(HeaderByte(PUBLISH, 0, qos, retained), PublishBody(qos, id, topic, payload));
  }

  lemma RequestOut(withQos: bool, filter: bytes, qos: nat, id: nat)
    requires |filter| < 65536 && qos < 256 && id < 65536
    ensures var p := SubscribePacket(withQos, id, filter, qos);
            && p == (if withQos then Image(130, Int(id) + Str(filter) + [qos]) else Image(162, Int(id) + Str(filter)))
            && |p| <= PacketLen(|S.Body(withQos, id, [S.Request(filter, qos)])|) <= |p| + 1
  {
    hide HeaderByte, PacketLen, Packet, Image, Str, Int;
    var rs := [S.Request(filter, qos)];
    assert rs[1..] == [];
    assert EntriesBytes(withQos, rs) == Str(filter) + (if withQos then [qos] else []);
    assert Int(id) + (Str(filter) + [qos]) == Int(id) + Str(filter) + [qos] && Str(filter) + [] == Str(filter);
    StrSize(filter);
    RequestImage(withQos, 0, id, rs);
    EntriesImage(withQos, rs);
    PacketSize(HeaderByte(if withQos then S.SUBSCRIBE else S.UNSUBSCRIBE, 0, 1, 0), S.Body(withQos, id, rs));
  }

  // ---------- pieces of logs ----------

  // What was added from a to b and from b to c is what was added from a to c.
  lemma Added(a: Log, b: Log, c: Log)
    requires a <= b <= c
    ensures a <= c && c[|a|..] == b[|a|..] + c[|b|..]
  {
    assert c[..|b|] == b;
    assert c == b + c[|b|..];
  }

  lemma IdleConcat(x: Log, y: Log)
    requires Idle(x) && Idle(y)
    ensures Idle(x + y) && (Cleaned in x + y <==> Cleaned in x || Cleaned in y)
  {
  }

  lemma {:induction false} LastReadConcat(x: Log, y: Log)
    ensures LastRead(x + y) == if LastRead(y).Some? then LastRead(y) else LastRead(x)
  {
    if y == [] {
      assert x + y == x;
    } else {
      assert (x + y)[..|x + y| - 1] == x + y[..|y| - 1];
      LastReadConcat(x, y[..|y| - 1]);
    }
  }

  lemma IdleChain(a: Log, b: Log, c: Log)
    requires a <= b <= c && Idle(b[|a|..]) && Idle(c[|b|..])
    ensures a <= c && Idle(c[|a|..]) && (Cleaned in c[|a|..] <==> Cleaned in b[|a|..] || Cleaned in c[|b|..])
    ensures LastRead(c[|a|..]) == if LastRead(c[|b|..]).Some? then LastRead(c[|b|..]) else LastRead(b[|a|..])
  {
    Added(a, b, c);
    IdleConcat(b[|a|..], c[|b|..]);
    LastReadConcat(b[|a|..], c[|b|..]);
  }

  lemma WaitedMore(s: State, t: State, u: State)
    requires Waited(s, t) && Waited(t, u)
    ensures Waited(s, u)
    ensures LastRead(u.log[|s.log|..])
         == if LastRead(u.log[|t.log|..]).Some? then LastRead(u.log[|t.log|..]) else LastRead(t.log[|s.log|..])
  {
    IdleChain(s.log, t.log, u.log);
  }

  // Neither a packet nor a call.
  predicate Silent(log: Log) { forall i :: 0 <= i < |log| ==> log[i].Pinged? || log[i].Cleaned? }

  lemma {:induction false} SilentRead(tail: Log)
    requires Silent(tail)
    ensures LastRead(tail) == None
  {
    if tail != [] {
      SilentRead(tail[..|tail| - 1]);
    }
  }

  // Waiting is not about what the network holds.
  lemma WaitedStill(s: State, t: State, u: State)
    requires Waited(s, t) && u == t.(rx := u.rx, calm := u.calm, patience := u.patience)
    ensures Waited(s, u)
  {
    hide Idle;
  }

  // A packet read, perhaps a ping, and perhaps cleaning.
  lemma OnePass(s: State, t: State, e: Happening, tail: Log)
    requires e.Read? && Silent(tail) && t.log == s.log + [e] + tail
    requires t.clean == s.clean && t.nextId == s.nextId && (t.connected ==> s.connected)
    requires Cleaned in tail ==> s.connected && s.clean && !t.connected
    ensures Waited(s, t) && LastRead(t.log[|s.log|..]) == Some(e)
  {
    hide LastRead;
    assert t.log[|s.log|..] == [e] + tail;
    SilentRead(tail);
    LastReadConcat([e], tail);
    LastOne(e);
  }

  lemma LastOne(e: Happening)
    ensures LastRead([e]) == if e.Read? then Some(e) else None
  {
    assert [e][..0] == [];
  }

  // A request and what came after it.
  lemma AfterRequest(a: Log, q: Happening, c: Log)
    requires q.Requested? && a + [q] <= c
    ensures a <= c && c[|a|..] == [q] + c[|a| + 1..] && c[|a|..][1..] == c[|a + [q]|..] && c[|a|] == q
    ensures LastRead(c[|a|..]) == LastRead(c[|a| + 1..])
  {
    assert [q][..0] == [];
    LastReadConcat([q], c[|a| + 1..]);
  }

  lemma TrailingClean(x: Log, clean: bool)
    requires Trailing(x)
    ensures Trailing(x + Cleaning(clean)) && EndsClean(x + Cleaning(clean), clean)
  {
  }

  // Waiting changes the stored publish only by cleaning.
  lemma {:induction false} IdleSlot(places: nat, a: Log, x: Log)
    requires Idle(x)
    ensures Replay(places, a + x).slot == if Cleaned in x then None else Replay(places, a).slot
  {
    hide Replay, Apply;
    if x == [] {
      assert a + x == a;
    } else {
      var y := x[..|x| - 1];
      IdleSlot(places, a, y);
      assert a + x == (a + y) + [x[|x| - 1]] && x == y + [x[|x| - 1]];
      Snoc(places, a + y, x[|x| - 1]);
      ApplyRecv(Replay(places, a + y), x[|x| - 1]);
    }
  }

  // ---------- what follows for runs ----------

  // A publish that was stored and neither replaced, settled nor cleaned away goes out again with
  // the next CONNECT that is sent in full; if the call succeeds, all its bytes reach the wire.
  lemma Retransmitted(s: State, t: State, rc: int, o: C.ConnectData, places: nat, max: nat, i: nat, p: Outgoing)
    requires Connected(s, t, rc, o, places, max) && !s.connected && PacketLen(C.ConnectLength(o)) <= max
    requires Full(t.log[|s.log|].attempt)
    requires i < |s.log| && s.log[i] == Stored(p) && p.id > 0 && forall j :: i < j < |s.log| ==> !TouchesSlot(s.log[j])
    ensures exists k ::
              && |s.log| < k < |t.log| && t.log[k].Requested? && t.log[k].attempt.packet == OutgoingPacket(p)
              && (rc == SUCCESS ==> Sent(t.log[..k + 1]) == Sent(t.log[..k]) + OutgoingPacket(p))
  {
    hide Replay, Apply, OutgoingPacket, C.ConnectLength, C.ConnectPacket, PacketLen, Sent, Accepted;
    StoredSlot(places, s.log, i, p);
    var more := t.log[|s.log|..];
    var m: nat :| ResentAt(more, m, p, rc);
    var k := |s.log| + m;
    assert t.log[k] == more[m] == more[m..][0];
    assert t.log[..k + 1] == t.log[..k] + [t.log[k]];
    Snoc(places, t.log[..k], t.log[k]);
    if rc == SUCCESS {
      assert OutgoingPacket(p)[..|OutgoingPacket(p)|] == OutgoingPacket(p);
    }
  }

  lemma StoredSlot(places: nat, log: Log, i: nat, p: Outgoing)
    requires i < |log| && log[i] == Stored(p) && p.id > 0 && forall j :: i < j < |log| ==> !TouchesSlot(log[j])
    ensures Replay(places, log).slot == Some(p)
  {
    hide Replay, OutgoingPacket;
    ReplayStep(places, log, i);
    SlotKept(places, log, i + 1, |log|);
    assert log[..|log|] == log;
  }

  // With a stored publish the result of connect does not depend on the CONNACK: it is that of the
  // publish, which for QoS 0 is whether all its bytes went out.
  lemma ConnackUnheeded(s: State, t: State, rc: int, o: C.ConnectData, places: nat, max: nat)
    requires Connected(s, t, rc, o, places, max) && !s.connected && PacketLen(C.ConnectLength(o)) <= max
    requires Full(t.log[|s.log|].attempt) && Replay(places, s.log).slot.Some?
    ensures var p := Replay(places, s.log).slot.value;
            exists k ::
              && |s.log| < k < |t.log| && t.log[k].Requested? && t.log[k].attempt.packet == OutgoingPacket(p)
              && (t.connected ==> Full(t.log[k].attempt) && (p.qos > 0 ==> Acked(LastRead(t.log[k..]), p.qos)))
              && (p.qos == 0 ==> (t.connected <==> Full(t.log[k].attempt)))
  {
    hide Replay, OutgoingPacket, C.ConnectLength, C.ConnectPacket, PacketLen, LastRead, Acked, Accepted;
    var p := Replay(places, s.log).slot.value;
    var more := t.log[|s.log|..];
    var m: nat :| ResentAt(more, m, p, rc);
    var k := |s.log| + m;
    assert t.log[k] == more[m] == more[m..][0] && t.log[k..] == more[m..];
  }

  // A SUBACK by its length: without a code it installs, with one or two the first decides, and with
  // more it does not install.
  lemma SubackMeaning(body: bytes, rest: bytes, signedChar: bool)
    requires |body| < 128
    ensures var mem := [144, |body|] + body + rest;
            && Framed(mem, 0)
            && (SubackInstalls(mem, signedChar) <==>
                |body| <= 2 || (|body| <= 4 && (signedChar || body[2] != 128)))
  {
    hide EncodeLen, DecodeLen;
    ShortImage(144, body);
    EncodeLenSize(|body|);
    PacketFramed(144, body, rest);
  }

  // Where char is signed a refused subscription is installed all the same.
  lemma RefusalInstalls(id: nat, rest: bytes, signedChar: bool)
    ensures var mem := Packet(HeaderByte(SUBACK, 0, 0, 0), U16(id) + [0x80]) + rest;
            Framed(mem, 0) && (SubackInstalls(mem, signedChar) <==> signedChar)
  {
    hide EncodeLen, DecodeLen, HeaderByte, U16;
    PacketFramed(HeaderByte(SUBACK, 0, 0, 0), U16(id) + [0x80], rest);
    assert (U16(id) + [0x80])[2] == 0x80;
  }
}
