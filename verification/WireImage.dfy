/**
The packets of MQTT Version 3.1.1 byte by byte, in numbers: what the serializers write, said without
any of their parts. With the round trips this fixes what the parsers read as well.
*/
module WireImage {
  import opened Basics
  import opened Wire
  import P = Publish
  import S = Subscriptions
  import C = Connect

  // A two-byte integer, most significant byte first (section 1.5.2).
  function Int(n: nat): bytes
    requires n < 65536
  {
    [n / 256, n % 256]
  }

  // A string with its length (section 1.5.3).
  function Str(x: bytes): bytes
    requires |x| < 65536
  {
    Int(|x|) + x
  }

  // The Remaining Length field: groups of seven bits, least significant first, all but the last
  // marked (section 2.2.3).
  function Len(n: nat): bytes
    requires n <= 268435455
  {
    if n < 128 then [n]
    else if n < 16384 then [128 + n % 128, n / 128]
    else if n < 2097152 then [128 + n % 128, 128 + n / 128 % 128, n / 16384]
    else [128 + n % 128, 128 + n / 128 % 128, 128 + n / 16384 % 128, n / 2097152]
  }

  function Image(first: nat, body: bytes): bytes
    requires first < 256 && |body| <= 268435455
  {
    [first] + Len(|body|) + body
  }

  lemma LenImage(n: nat)
    requires n <= 268435455
    ensures EncodeLen(n) == Len(n)
  {
    hide EncodeLen;
    var a := n / 128;
    var b := a / 128;
    var c := b / 128;
    LenStep(n);
    LenStep(a);
    LenStep(b);
    LenStep(c);
    assert b == n / 16384 && c == n / 2097152;
  }

  lemma LenStep(n: nat)
    ensures n < 128 ==> EncodeLen(n) == [n]
    ensures n >= 128 ==> EncodeLen(n) == [n % 128 + 128] + EncodeLen(n / 128)
  {
  }

  // The field read back, in its shortest form or not: the bytes' low seven bits, least significant
  // first. Four marked bytes have the value of all four and are counted for five.
  lemma LenParsed(a: byte, b: byte, c: byte, d: byte, rest: bytes)
    ensures DecodeLen([a, b, c, d] + rest)
         == if a < 128 then Decoded(1, a, 1)
            else if b < 128 then Decoded(2, a - 128 + 128 * b, 2)
            else if c < 128 then Decoded(3, a - 128 + 128 * (b - 128) + 16384 * c, 3)
            else if d < 128 then Decoded(4, a - 128 + 128 * (b - 128) + 16384 * (c - 128) + 2097152 * d, 4)
            else Decoded(5, a - 128 + 128 * (b - 128) + 16384 * (c - 128) + 2097152 * (d - 128), 4)
  {
    hide DecodeFrom, Digit;
    DigitValue(a);
    DigitValue(b);
    DigitValue(c);
    DigitValue(d);
    var s: bytes := [a, b, c, d] + rest;
    assert s[1..] == [b, c, d] + rest && s[1..][1..] == [c, d] + rest && s[1..][1..][1..] == [d] + rest;
    assert s[1..][1..][1..][1..] == rest;
    var x, y, z := Digit(a, 1), Digit(b, 128), Digit(c, 16384);
    DecodeStep(s, 0, 1, 0);
    DecodeStep(s[1..], 1, 128, x);
    DecodeStep(s[1..][1..], 2, 16384, x + y);
    DecodeStep(s[1..][1..][1..], 3, 2097152, x + y + z);
    DecodeStep(rest, 4, 268435456, x + y + z + Digit(d, 2097152));
  }

  lemma DigitValue(c: byte)
    ensures var low := if c < 128 then c else c - 128;
            && Digit(c, 1) == low && Digit(c, 128) == 128 * low
            && Digit(c, 16384) == 16384 * low && Digit(c, 2097152) == 2097152 * low
  {
  }

  lemma PacketImage(header: byte, body: bytes)
    requires |body| <= 268435455
    ensures Packet(header, body) == Image(header, body)
  {
    hide EncodeLen, Len;
    LenImage(|body|);
  }

  lemma IntImage(n: nat)
    requires n < 65536
    ensures U16(n) == Int(n)
  {
  }

  lemma StrImage(x: bytes)
    requires |x| < 65536
    ensures Prefixed(x) == Str(x)
  {
    IntImage(|x|);
  }

  // ---------- PUBLISH and its acknowledgements ----------

  function PublishBytes(dup: nat, qos: nat, retained: nat, id: nat, topic: bytes, payload: bytes): bytes
    requires dup < 2 && qos < 3 && retained < 2 && id < 65536 && |topic| < 65536
    requires 2 + |topic| + (if qos > 0 then 2 else 0) + |payload| <= 268435455
  {
    Image(48 + 8 * dup + 2 * qos + retained, Str(topic) + (if qos > 0 then Int(id) else []) + payload)
  }

  lemma PublishHeader(dup: nat, qos: nat, retained: nat)
    requires dup < 2 && qos < 3 && retained < 2
    ensures HeaderByte(P.PUBLISH, dup, qos, retained) == 48 + 8 * dup + 2 * qos + retained
  {
  }

  // Section 3.3.
  lemma PublishImage(dup: nat, qos: nat, retained: nat, id: nat, topic: bytes, payload: bytes)
    requires dup < 2 && qos < 3 && retained < 2 && id < 65536 && |topic| < 65536
    requires 2 + |topic| + (if qos > 0 then 2 else 0) + |payload| <= 268435455
    ensures P.PublishPacket(dup, qos, retained, id, topic, payload)
         == PublishBytes(dup, qos, retained, id, topic, payload)
  {
    hide Image, Packet, U16, Int, Prefixed, Str, HeaderByte;
    StrImage(topic);
    IntImage(id);
    StrSize(topic);
    PublishHeader(dup, qos, retained);
    PacketImage(HeaderByte(P.PUBLISH, dup, qos, retained), P.PublishBody(qos, id, topic, payload));
  }

  lemma StrSize(x: bytes)
    requires |x| < 65536
    ensures |Str(x)| == 2 + |x| && forall n: nat :: n < 65536 ==> |Int(n)| == 2
  {
  }

  // What the parser makes of those bytes, whatever follows.
  lemma PublishParsed(dup: nat, qos: nat, retained: nat, id: nat, topic: bytes, payload: bytes, rest: bytes)
    requires dup < 2 && qos < 3 && retained < 2 && id < 65536 && |topic| < 65536 && |rest| >= 2
    requires 2 + |topic| + (if qos > 0 then 2 else 0) + |payload| <= 268435455
    ensures var mem := PublishBytes(dup, qos, retained, id, topic, payload) + rest;
            Framed(mem, 2) && P.ParsePublish(mem)
                              == P.PublishIn(dup, qos, retained, if qos > 0 then id else 0, topic, payload, |payload|)
  {
    hide PublishBytes, P.PublishPacket, P.ParsePublish, Framed;
    PublishImage(dup, qos, retained, id, topic, payload);
    P.PublishRoundTrip(dup, qos, retained, id, topic, payload, rest);
  }

  // Sections 3.4 to 3.7 and 3.11: PUBACK, PUBREC, PUBREL, PUBCOMP and UNSUBACK.
  lemma AckImage(id: nat)
    requires id < 65536
    ensures P.AckPacket(4, 0, id) == [64, 2, id / 256, id % 256]
    ensures P.AckPacket(5, 0, id) == [80, 2, id / 256, id % 256]
    ensures P.AckPacket(6, 0, id) == [98, 2, id / 256, id % 256]
    ensures P.AckPacket(7, 0, id) == [112, 2, id / 256, id % 256]
    ensures P.AckPacket(11, 0, id) == [176, 2, id / 256, id % 256]
  {
    LenStep(2);
  }

  // An acknowledgement read back: its identifier, or none where it is too short for one; the
  // latter is accepted all the same.
  lemma AckParsed(first: byte, hi: byte, lo: byte, rest: bytes)
    ensures var mem: bytes := [first, 2, hi, lo] + rest;
            Framed(mem, 0) && P.ParseAck(mem).rc == 1 && P.ParseAck(mem).id == Some(256 * hi + lo)
    ensures var mem: bytes := [first, 0] + rest;
            Framed(mem, 0) && P.ParseAck(mem).rc == 1 && P.ParseAck(mem).id == None
    ensures var mem: bytes := [first, 1, hi] + rest;
            Framed(mem, 0) && P.ParseAck(mem).rc == 1 && P.ParseAck(mem).id == None
  {
    hide Framed, DecodeLen, HeaderType, HeaderDup;
    ShortImage(first, [hi, lo]);
    ShortImage(first, []);
    ShortImage(first, [hi]);
    PacketFramed(first, [hi, lo], rest);
    PacketFramed(first, [], rest);
    PacketFramed(first, [hi], rest);
    FramedAtAll(Packet(first, [hi, lo]) + rest, |rest|);
    FramedAtAll(Packet(first, []) + rest, |rest|);
    FramedAtAll(Packet(first, [hi]) + rest, |rest|);
    assert [first, 0] + [] == [first, 0] && [first, 1] + [hi] == [first, 1, hi];
    assert [first, 2] + [hi, lo] == [first, 2, hi, lo];
  }

  lemma FramedAtAll(mem: bytes, slack: nat)
    requires Framed(mem, slack)
    ensures Framed(mem, 0) && (GoodLength(mem[1..]) && BodyStart(mem) == 2 ==> DecodeLen(mem[1..]).len == 1)
  {
  }

  lemma ShortImage(first: byte, body: bytes)
    requires |body| < 128
    ensures Packet(first, body) == [first, |body|] + body
  {
    LenStep(|body|);
  }

  // ---------- SUBSCRIBE and UNSUBSCRIBE ----------

  // Lists whose members have lengths and QoS values of their width.
  predicate Plain(withQos: bool, rs: seq<S.Request>) {
    forall i :: 0 <= i < |rs| ==> |rs[i].filter| < 65536 && (withQos ==> 0 <= rs[i].qos < 256)
  }

  function EntriesBytes(withQos: bool, rs: seq<S.Request>): bytes
    requires Plain(withQos, rs)
  {
    if rs == [] then []
    else Str(rs[0].filter) + (if withQos then [rs[0].qos] else []) + EntriesBytes(withQos, rs[1..])
  }

  lemma {:induction false} EntriesImage(withQos: bool, rs: seq<S.Request>)
    requires Plain(withQos, rs)
    ensures S.Entries(withQos, rs) == EntriesBytes(withQos, rs)
  {
    hide Str, Prefixed;
    if rs != [] {
      StrImage(rs[0].filter);
      EntriesImage(withQos, rs[1..]);
    }
  }

  // Sections 3.8 and 3.10.
  lemma RequestImage(withQos: bool, dup: nat, id: nat, rs: seq<S.Request>)
    requires Plain(withQos, rs) && dup < 2 && id < 65536 && 2 + |EntriesBytes(withQos, rs)| <= 268435455
    ensures S.RequestPacket(withQos, dup, id, rs)
         == Image((if withQos then 130 else 162) + 8 * dup, Int(id) + EntriesBytes(withQos, rs))
  {
    hide Image, Packet, EntriesBytes, S.Entries, U16, Int;
    EntriesImage(withQos, rs);
    IntImage(id);
    RequestHeader(withQos, dup);
    PacketImage(HeaderByte(if withQos then S.SUBSCRIBE else S.UNSUBSCRIBE, dup, 1, 0), S.Body(withQos, id, rs));
  }

  lemma RequestHeader(withQos: bool, dup: nat)
    requires dup < 2
    ensures HeaderByte(if withQos then S.SUBSCRIBE else S.UNSUBSCRIBE, dup, 1, 0)
         == (if withQos then 130 else 162) + 8 * dup
  {
  }

  // ---------- CONNECT ----------

  // The characters of a string, whichever way it is handed over, and whether there is one at all.
  function Text(s: MqttString): bytes {
    match s
    case MqttString(Some(c), Some(d)) => if d == [] then c else d
    case MqttString(Some(c), None) => c
    case MqttString(None, Some(d)) => d
    case MqttString(None, None) => []
  }

  predicate Supplied(s: MqttString) { s != MqttString(None, None) }

  lemma TextImage(s: MqttString)
    ensures StrBytes(s) == Text(s) && (Present(s) <==> Supplied(s))
  {
  }

  function Given(present: bool, s: MqttString): bytes
    requires present ==> |Text(s)| < 65536
  {
    if present then Str(Text(s)) else []
  }

  function ConnectFlags(clean: nat, will: bool, qos: nat, retained: nat, password: bool, username: bool): byte
    requires clean < 2 && qos < 4 && retained < 2
  {
    2 * clean + (if will then 4 + 8 * qos + 32 * retained else 0)
    + (if password then 64 else 0) + (if username then 128 else 0)
  }

  // Values that their fields can hold, and strings that fit their lengths.
  predicate Sendable(o: C.ConnectData) {
    && o.keepAlive < 65536 && o.cleansession < 2 && o.will.qos < 4 && o.will.retained < 2
    && |Text(o.clientID)| < 65536
    && (o.willFlag != 0 ==> |Text(o.will.topic)| < 65536 && |Text(o.will.message)| < 65536)
    && (Supplied(o.username) ==> |Text(o.username)| < 65536) && (Supplied(o.password) ==> |Text(o.password)| < 65536)
  }

  lemma SendableIsShort(o: C.ConnectData)
    ensures Sendable(o) <==> C.Short(o)
  {
    hide StrBytes, Text, Present, Supplied;
    TextImage(o.clientID);
    TextImage(o.will.topic);
    TextImage(o.will.message);
    TextImage(o.username);
    TextImage(o.password);
  }

  function FlagsOf(o: C.ConnectData): byte
    requires Sendable(o)
  {
    ConnectFlags(o.cleansession, o.willFlag != 0, o.will.qos, o.will.retained,
                 Supplied(o.password), Supplied(o.username))
  }

  function ConnectBytes(o: C.ConnectData): bytes
    requires Sendable(o)
  {
    (if o.version == 4 then [0, 4, 77, 81, 84, 84, 4] else [0, 6, 77, 81, 73, 115, 100, 112, 3])
    + [FlagsOf(o)] + Int(o.keepAlive)
    + Str(Text(o.clientID)) + Given(o.willFlag != 0, o.will.topic) + Given(o.willFlag != 0, o.will.message)
    + Given(Supplied(o.username), o.username) + Given(Supplied(o.password), o.password)
  }

  // Section 3.1; version 3 is that of MQTT 3.1.
  lemma ConnectImage(o: C.ConnectData)
    requires Sendable(o) && (o.version == 3 || o.version == 4) && |ConnectBytes(o)| <= 268435455
    ensures C.ConnectPacket(o) == Image(16, ConnectBytes(o))
  {
    hide Image, Packet, ConnectBytes, C.ConnectBody, HeaderByte;
    ConnectBodyImage(o);
    assert HeaderByte(C.CONNECT, 0, 0, 0) == 16 by { ConnectHeader(); }
    PacketImage(HeaderByte(C.CONNECT, 0, 0, 0), C.ConnectBody(o));
  }

  // What the parsers make of those bytes, whatever follows. A password needs a user name, and the
  // last of the two must not be empty; other packets are refused.
  lemma ConnectParsed(o: C.ConnectData, rest: bytes)
    requires C.Usable(o) && Sendable(o) && |rest| >= 4 && |ConnectBytes(o)| <= 268435455
    ensures var p := Image(16, ConnectBytes(o));
            && C.Parsable(p + rest, |p|)
            && C.ParseConnect(p + rest, |p|)
               == if (Supplied(o.password) ==> Supplied(o.username) && Text(o.password) != [])
                     && (Supplied(o.username) && !Supplied(o.password) ==> Text(o.username) != [])
                  then C.ConnectIn(o.cleansession, o.keepAlive, Text(o.clientID), WillOf(o),
                                   TextOf(Supplied(o.username), o.username), TextOf(Supplied(o.password), o.password))
                  else C.ConnectBad
  {
    hide Image, ConnectBytes, C.ConnectPacket, C.ParseConnect, C.Parsable, StrBytes, Text, Present, Supplied,
         C.ConnectLength;
    ConnectImage(o);
    ConnectBodyImage(o);
    SendableIsShort(o);
    TextImage(o.clientID);
    TextImage(o.will.topic);
    TextImage(o.will.message);
    TextImage(o.username);
    TextImage(o.password);
    C.ConnectLengthExact(o);
    C.ConnectRoundTrip(o, rest);
  }

  function TextOf(present: bool, s: MqttString): Option<bytes> { if present then Some(Text(s)) else None }

  function WillOf(o: C.ConnectData): Option<C.Will> {
    if o.willFlag == 0 then None
    else Some(C.Will(o.will.qos, o.will.retained, Text(o.will.topic), Text(o.will.message)))
  }

  // As far as both go.
  predicate Agree(a: bytes, b: bytes) { forall i :: 0 <= i < |a| && i < |b| ==> a[i] == b[i] }

  // The protocol name counts only as far as it goes: even an empty one is taken, with either level.
  lemma NameRule(name: bytes, level: byte, flags: byte, hi: byte, lo: byte, payload: bytes, after: bytes)
    requires |name| < 65536 && |after| >= 4
    ensures C.ParseBody(Str(name) + ([level, flags, hi, lo] + payload), after)
         == if (level == 4 && Agree(name, [77, 81, 84, 84])) || (level == 3 && Agree(name, [77, 81, 73, 115, 100, 112]))
            then C.ParsePayload(flags, 256 * hi + lo, payload) else C.ConnectBad
  {
    hide C.ParsePayload, Prefixed, Str, TakeString;
    var r := [level, flags, hi, lo] + payload;
    StrImage(name);
    TakePrefixed(name, r);
    var s := r + after;
    assert s[0] == level && s[1] == flags && s[2..][0] == hi && s[2..][1] == lo && r[4..] == payload;
    SameAgrees(name, C.MQTT);
    SameAgrees(name, C.MQISDP);
  }

  lemma SameAgrees(a: bytes, b: bytes)
    ensures C.SamePrefix(a, b) <==> Agree(a, b)
  {
    var n := if |a| < |b| then |a| else |b|;
    if C.SamePrefix(a, b) {
      forall i | 0 <= i < |a| && i < |b| ensures a[i] == b[i] {
        assert a[..n][i] == b[..n][i];
      }
    }
  }

  lemma RequestParsed(signed: bool, withQos: bool, dup: nat, id: nat, rs: seq<S.Request>, rest: bytes)
    requires Plain(withQos, rs) && dup < 2 && id < 65536 && 2 + |EntriesBytes(withQos, rs)| <= 268435455 && |rest| >= 2
    requires forall i :: 0 <= i < |rs| ==> rs[i].qos < (if !withQos then 1 else if signed then 128 else 256)
    requires forall i :: 0 <= i < |rs| ==> rs[i].qos >= 0
    ensures var mem := Image((if withQos then 130 else 162) + 8 * dup, Int(id) + EntriesBytes(withQos, rs)) + rest;
            Framed(mem, 2) && S.ParseRequest(signed, withQos, mem) == S.RequestIn(1, dup, id, rs)
  {
    hide Image, EntriesBytes, S.RequestPacket, S.ParseRequest, Framed, S.Entries;
    RequestImage(withQos, dup, id, rs);
    EntriesImage(withQos, rs);
    S.RequestRoundTrip(signed, withQos, dup, id, rs, rest);
  }

  lemma ConnectHeader()
    ensures HeaderByte(C.CONNECT, 0, 0, 0) == 16
  {
  }

  lemma ConnectFlagsImage(o: C.ConnectData)
    requires Sendable(o)
    ensures C.Flags(o) == FlagsOf(o)
  {
    hide Present, StrBytes, Text, Supplied;
    TextImage(o.username);
    TextImage(o.password);
    assert o.cleansession % 2 == o.cleansession;
    assert o.will.qos % 4 == o.will.qos && o.will.retained % 2 == o.will.retained;
  }

  lemma GivenImage(present: bool, s: MqttString)
    requires present ==> |Text(s)| < 65536
    ensures C.Optional(present, StrBytes(s)) == Given(present, s)
  {
    hide StrBytes, Text;
    TextImage(s);
    if present {
      StrImage(Text(s));
    }
  }

  lemma NameImage()
    ensures Prefixed(C.MQTT) + [4] == [0, 4, 77, 81, 84, 84, 4]
    ensures Prefixed(C.MQISDP) + [3] == [0, 6, 77, 81, 73, 115, 100, 112, 3]
  {
  }

  lemma ConnectBodyImage(o: C.ConnectData)
    requires Sendable(o) && (o.version == 3 || o.version == 4)
    ensures C.ConnectBody(o) == ConnectBytes(o)
  {
    hide Prefixed, Str, StrBytes, Text, C.Optional, Given, C.Flags, FlagsOf, U16, Int, Present, Supplied;
    NameImage();
    ConnectFlagsImage(o);
    IntImage(o.keepAlive);
    TextImage(o.clientID);
    TextImage(o.username);
    TextImage(o.password);
    StrImage(Text(o.clientID));
    GivenImage(o.willFlag != 0, o.will.topic);
    GivenImage(o.willFlag != 0, o.will.message);
    GivenImage(Supplied(o.username), o.username);
    GivenImage(Supplied(o.password), o.password);
    var c, t := Str(Text(o.clientID)), Given(o.willFlag != 0, o.will.topic);
    var m := Given(o.willFlag != 0, o.will.message);
    var u, p := Given(Supplied(o.username), o.username), Given(Supplied(o.password), o.password);
    Regroup(C.Fixed(o), c, t, m, u, p);
  }

  lemma Regroup(f: bytes, c: bytes, t: bytes, m: bytes, u: bytes, p: bytes)
    ensures f + (c + ((t + m) + (u + p))) == f + c + t + m + u + p
  {
  }
}
