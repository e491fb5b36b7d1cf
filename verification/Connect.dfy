/**
CONNECT: MQTTConnectClient.c and MQTTConnectServer.c (section 3.1 of MQTT Version 3.1.1).
*/
module Connect {
  import opened Basics
  import opened Wire

  const CONNECT := 1

  const MQTT: bytes := [77, 81, 84, 84]
  const MQISDP: bytes := [77, 81, 73, 115, 100, 112]

  datatype WillOptions = WillOptions(topic: MqttString, message: MqttString, retained: nat, qos: nat)

  datatype ConnectData = ConnectData(version: nat, clientID: MqttString, keepAlive: nat, cleansession: nat,
                                     willFlag: nat, will: WillOptions, username: MqttString, password: MqttString)

  // What the serializer relies on: a known version and strings whose counted length is the
  // one written.
  predicate Usable(o: ConnectData) {
    && (o.version == 3 || o.version == 4)
    && Counted(o.clientID) && Counted(o.username) && Counted(o.password)
    && Counted(o.will.topic) && Counted(o.will.message)
  }

  function ConnectLength(o: ConnectData): nat {
    (if o.version == 3 then 12 else if o.version == 4 then 10 else 0)
    + StrLen(o.clientID) + 2
    + (if o.willFlag != 0 then StrLen(o.will.topic) + 2 + StrLen(o.will.message) + 2 else 0)
    + (if Present(o.username) then StrLen(o.username) + 2 else 0)
    + (if Present(o.password) then StrLen(o.password) + 2 else 0)
  }

  function Bit(b: bool): nat { if b then 1 else 0 }

  // Bits 1 to 7: clean session, will, will QoS (two bits), will retain, password, user name.
  function FlagByte(c: nat, w: nat, q: nat, t: nat, p: nat, u: nat): byte
    requires c < 2 && w < 2 && q < 4 && t < 2 && p < 2 && u < 2
  {
    c * 2 + w * 4 + q * 8 + t * 32 + p * 64 + u * 128
  }

  function Flags(o: ConnectData): byte {
    var w := o.willFlag != 0;
    FlagByte(o.cleansession % 2, Bit(w), if w then o.will.qos % 4 else 0, if w then o.will.retained % 2 else 0,
             Bit(Present(o.password)), Bit(Present(o.username)))
  }

  function Protocol(o: ConnectData): bytes { if o.version == 4 then Prefixed(MQTT) + [4] else Prefixed(MQISDP) + [3] }

  function Fixed(o: ConnectData): bytes { Protocol(o) + [Flags(o)] + U16(o.keepAlive) }

  function Optional(present: bool, x: bytes): bytes { if present then Prefixed(x) else [] }

  function Credentials(o: ConnectData): bytes {
    Optional(Present(o.username), StrBytes(o.username)) + Optional(Present(o.password), StrBytes(o.password))
  }

  function WillBytes(o: ConnectData): bytes {
    Optional(o.willFlag != 0, StrBytes(o.will.topic)) + Optional(o.willFlag != 0, StrBytes(o.will.message))
  }

  function Payload(o: ConnectData): bytes { Prefixed(StrBytes(o.clientID)) + (WillBytes(o) + Credentials(o)) }

  function ConnectBody(o: ConnectData): bytes { Fixed(o) + Payload(o) }

  function ConnectPacket(o: ConnectData): bytes { Packet(HeaderByte(CONNECT, 0, 0, 0), ConnectBody(o)) }

  // connectLength predicts the body size exactly.
  lemma ConnectLengthExact(o: ConnectData)
    requires Usable(o)
    ensures ConnectLength(o) == |ConnectBody(o)|
  {
    hide U16, StrBytes, Flags;
    StrLenExact(o.clientID);
    StrLenExact(o.will.topic);
    StrLenExact(o.will.message);
    StrLenExact(o.username);
    StrLenExact(o.password);
    assert |Fixed(o)| == if o.version == 3 then 12 else 10;
  }

  method WriteOptional(buf: array<byte>, start: nat, present: bool, s: MqttString) returns (ptr: nat)
    requires start + |Optional(present, StrBytes(s))| <= buf.Length
    modifies buf
    ensures ptr == start + |Optional(present, StrBytes(s))|
    ensures buf[..] == Write(old(buf[..]), start, Optional(present, StrBytes(s)))
  {
    ptr := start;
    if present {
      ptr := WriteString(buf, start, s);
    } else {
      WriteNothing(buf[..], start);
    }
  }

  method WriteFixed(buf: array<byte>, start: nat, o: ConnectData) returns (ptr: nat)
    requires start + |Fixed(o)| <= buf.Length
    modifies buf
    ensures ptr == start + |Fixed(o)|
    ensures buf[..] == Write(old(buf[..]), start, Fixed(o))
  {
    hide Write, U16, Flags;
    ghost var b0 := buf[..];
    if o.version == 4 {
      ptr := WriteString(buf, start, MqttString(Some(MQTT), None));
      ptr := WriteChar(buf, ptr, 4);
      WriteThen(b0, start, Prefixed(MQTT), [4]);
    } else {
      ptr := WriteString(buf, start, MqttString(Some(MQISDP), None));
      ptr := WriteChar(buf, ptr, 3);
      WriteThen(b0, start, Prefixed(MQISDP), [3]);
    }
    ptr := WriteChar(buf, ptr, Flags(o));
    WriteThen(b0, start, Protocol(o), [Flags(o)]);
    ptr := WriteInt(buf, ptr, o.keepAlive);
    WriteThen(b0, start, Protocol(o) + [Flags(o)], U16(o.keepAlive));
  }

  method WritePayload(buf: array<byte>, start: nat, o: ConnectData) returns (ptr: nat)
    requires start + |Payload(o)| <= buf.Length
    modifies buf
    ensures ptr == start + |Payload(o)|
    ensures buf[..] == Write(old(buf[..]), start, Payload(o))
  {
    hide Write, U16, StrBytes, Optional, Prefixed;
    ghost var b0 := buf[..];
    ghost var c := Prefixed(StrBytes(o.clientID));
    ghost var t := Optional(o.willFlag != 0, StrBytes(o.will.topic));
    ghost var m := Optional(o.willFlag != 0, StrBytes(o.will.message));
    ghost var u := Optional(Present(o.username), StrBytes(o.username));
    ghost var p := Optional(Present(o.password), StrBytes(o.password));
    assert |c| == 2 + |StrBytes(o.clientID)| by { PrefixedSize(StrBytes(o.clientID)); }
    assert c + t + m + u + p == Payload(o);
    ptr := WriteString(buf, start, o.clientID);
    ptr := WriteOptional(buf, ptr, o.willFlag != 0, o.will.topic);
    WriteThen(b0, start, c, t);
    ptr := WriteOptional(buf, ptr, o.willFlag != 0, o.will.message);
    WriteThen(b0, start, c + t, m);
    ptr := WriteOptional(buf, ptr, Present(o.username), o.username);
    WriteThen(b0, start, c + t + m, u);
    ptr := WriteOptional(buf, ptr, Present(o.password), o.password);
    WriteThen(b0, start, c + t + m + u, p);
  }

  lemma PrefixedSize(x: bytes)
    ensures |Prefixed(x)| == 2 + |x|
  {
  }

  method SerializeConnect(buf: array<byte>, buflen: nat, o: ConnectData) returns (rc: int)
    requires buflen <= buf.Length && Usable(o)
    requires ConnectLength(o) <= MAX_REMAINING || buflen <= MAX_REMAINING
    modifies buf
    ensures rc == BUFFER_TOO_SHORT <==> PacketLen(ConnectLength(o)) > buflen
    ensures rc == BUFFER_TOO_SHORT ==> buf[..] == old(buf[..])
    ensures rc != BUFFER_TOO_SHORT ==>
              && 0 < rc == |ConnectPacket(o)| == 1 + |EncodeLen(ConnectLength(o))| + ConnectLength(o) <= buflen
              && buf[..] == Write(old(buf[..]), 0, ConnectPacket(o))
  {
    hide EncodeLen, HeaderByte, Write, U16, PacketLen, ConnectLength, Fixed, Payload;
    ghost var b0 := buf[..];
    var len := ConnectLength(o);
    PacketLenGrows(len);
    if PacketLen(len) > buflen {
      return BUFFER_TOO_SHORT;
    }
    ConnectLengthExact(o);
    PacketLenExact(len);
    ghost var h := [HeaderByte(CONNECT, 0, 0, 0)] + EncodeLen(len);
    var ptr := WriteHeader(buf, HeaderByte(CONNECT, 0, 0, 0), len);
    ptr := WriteFixed(buf, ptr, o);
    WriteThen(b0, 0, h, Fixed(o));
    ptr := WritePayload(buf, ptr, o);
    WriteThen(b0, 0, h + Fixed(o), Payload(o));
    assert h + Fixed(o) + Payload(o) == h + ConnectBody(o);
    rc := ptr;
  }

  // ---------- parsing ----------

  datatype Will = Will(qos: nat, retained: nat, topic: bytes, message: bytes)

  datatype ConnectIn =
    | ConnectBad
    | ConnectIn(cleansession: nat, keepAlive: nat, clientID: bytes, will: Option<Will>,
                username: Option<bytes>, password: Option<bytes>)

  // MQTTPacket_checkVersion compares only as many characters as the name has.
  predicate CheckVersion(protocol: bytes, version: int) {
    || (version == 3 && SamePrefix(protocol, MQISDP))
    || (version == 4 && SamePrefix(protocol, MQTT))
  }

  predicate SamePrefix(protocol: bytes, expected: bytes) {
    var n := if |protocol| < |expected| then |protocol| else |expected|;
    protocol[..n] == expected[..n]
  }

  // Name and version, flags and keep-alive are read without a check against the end: four bytes
  // after the packet may be looked at.
  function ParseBody(b: bytes, after: bytes): ConnectIn
    requires |after| >= 4
  {
    var t := TakeString(b);
    if t.None? then ConnectBad
    else
      var (protocol, r) := t.value;
      var s := r + after;
      if !CheckVersion(protocol, s[0]) || |r| < 4 then ConnectBad
      else ParsePayload(s[1], ReadU16(s[2..]), r[4..])
  }

  function ParsePayload(flags: byte, keepAlive: nat, b: bytes): ConnectIn {
    var c := TakeString(b);
    if c.None? then ConnectBad
    else
      var (clientID, r) := c.value;
      if flags / 4 % 2 == 0 then ParseCredentials(flags, keepAlive, clientID, None, r)
      else
        var t := TakeString(r);
        if t.None? then ConnectBad
        else
          var m := TakeString(t.value.1);
          if m.None? then ConnectBad
          else ParseCredentials(flags, keepAlive, clientID,
                                Some(Will(flags / 8 % 4, flags / 32 % 2, t.value.0, m.value.0)), m.value.1)
  }

  function ParseCredentials(flags: byte, keepAlive: nat, clientID: bytes, will: Option<Will>, b: bytes): ConnectIn {
    if flags / 128 == 0 then
      if flags / 64 % 2 == 1 then ConnectBad
      else ConnectIn(flags / 2 % 2, keepAlive, clientID, will, None, None)
    else
      var u := TakeString(b);
      if |b| < 3 || u.None? then ConnectBad
      else if flags / 64 % 2 == 0 then ConnectIn(flags / 2 % 2, keepAlive, clientID, will, Some(u.value.0), None)
      else
        var p := TakeString(u.value.1);
        if |u.value.1| < 3 || p.None? then ConnectBad
        else ConnectIn(flags / 2 % 2, keepAlive, clientID, will, Some(u.value.0), Some(p.value.0))
  }

  // The parser trusts the length it is given, not the Remaining Length field.
  predicate Parsable(mem: bytes, len: nat) {
    |mem| >= 1 && FieldEnds(mem[1..]) && BodyStart(mem) <= len && len + 4 <= |mem|
  }

  function ParseConnect(mem: bytes, len: nat): ConnectIn
    requires Parsable(mem, len)
  {
    if HeaderType(mem[0]) != CONNECT then ConnectBad
    else ParseBody(mem[BodyStart(mem)..len], mem[len..])
  }

  method ReadCredentials(mem: bytes, start: nat, enddata: nat, flags: byte, keepAlive: nat, clientID: bytes,
                         will: Option<Will>) returns (r: ConnectIn)
    requires start <= enddata <= |mem|
    ensures r == ParseCredentials(flags, keepAlive, clientID, will, mem[start..enddata])
  {
    hide TakeString;
    r := ConnectBad;
    var username, password := None, None;
    var curdata := start;
    if flags / 128 != 0 {
      if enddata - curdata < 3 {
        return;
      }
      var ok, u, next := ReadString(mem, curdata, enddata);
      if !ok {
        return;
      }
      curdata, username := next, Some(u);
      if flags / 64 % 2 != 0 {
        if enddata - curdata < 3 {
          return;
        }
        var ok', p, next' := ReadString(mem, curdata, enddata);
        if !ok' {
          return;
        }
        curdata, password := next', Some(p);
      }
    } else if flags / 64 % 2 != 0 {
      return;
    }
    r := ConnectIn(flags / 2 % 2, keepAlive, clientID, will, username, password);
  }

  method ReadPayload(mem: bytes, start: nat, enddata: nat, flags: byte, keepAlive: nat) returns (r: ConnectIn)
    requires start <= enddata <= |mem|
    ensures r == ParsePayload(flags, keepAlive, mem[start..enddata])
  {
    hide TakeString, ParseCredentials;
    var ok, clientID, curdata := ReadString(mem, start, enddata);
    if !ok {
      return ConnectBad;
    }
    var will := None;
    if flags / 4 % 2 != 0 {
      var okt, topic, next := ReadString(mem, curdata, enddata);
      if !okt {
        return ConnectBad;
      }
      var okm, message, next' := ReadString(mem, next, enddata);
      if !okm {
        return ConnectBad;
      }
      will, curdata := Some(Will(flags / 8 % 4, flags / 32 % 2, topic, message)), next';
    }
    r := ReadCredentials(mem, curdata, enddata, flags, keepAlive, clientID, will);
  }

  method DeserializeConnect(mem: bytes, len: nat) returns (r: ConnectIn)
    requires Parsable(mem, len)
    ensures r == ParseConnect(mem, len)
  {
    hide DecodeLen, TakeString, ParsePayload, HeaderType, CheckVersion;
    if HeaderType(mem[0]) != CONNECT {
      return ConnectBad;
    }
    var n, mylen := DecodeBuf(mem, 1);
    var curdata, enddata := 1 + n, len;
    var ok, protocol, next := ReadString(mem, curdata, enddata);
    if !ok {
      return ConnectBad;
    }
    curdata := next;
    ghost var rest := mem[next..enddata];
    assert rest + mem[len..] == mem[next..];
    var version := mem[curdata];
    curdata := curdata + 1;
    if !CheckVersion(protocol, version) {
      return ConnectBad;
    }
    var flags := mem[curdata];
    var keepAlive := ReadU16(mem[curdata + 1..]);
    assert mem[next..][2..] == mem[curdata + 1..];
    curdata := curdata + 3;
    if curdata > enddata {
      return ConnectBad;
    }
    SliceOfSlice(mem, next, enddata, 4, enddata - next);
    r := ReadPayload(mem, curdata, enddata, flags, keepAlive);
  }

  // ---------- round trip ----------

  // Values that their fields can hold.
  predicate Typed(o: ConnectData) {
    o.keepAlive < 65536 && o.cleansession < 2 && o.will.qos < 4 && o.will.retained < 2
  }

  // Every string that is sent fits its two-byte length.
  predicate LengthsFit(o: ConnectData) {
    && |StrBytes(o.clientID)| < 65536
    && (o.willFlag != 0 ==> |StrBytes(o.will.topic)| < 65536 && |StrBytes(o.will.message)| < 65536)
    && (Present(o.username) ==> |StrBytes(o.username)| < 65536)
    && (Present(o.password) ==> |StrBytes(o.password)| < 65536)
  }

  predicate Short(o: ConnectData) { Typed(o) && LengthsFit(o) }

  // A password needs a user name, and the last of the two must not be empty.
  predicate CredentialsAccepted(o: ConnectData) {
    && (Present(o.username) && !Present(o.password) ==> StrBytes(o.username) != [])
    && (Present(o.password) ==> Present(o.username) && StrBytes(o.password) != [])
  }

  function Opt(present: bool, s: MqttString): Option<bytes> { if present then Some(StrBytes(s)) else None }

  function WillIn(o: ConnectData): Option<Will> {
    if o.willFlag == 0 then None
    else Some(Will(o.will.qos, o.will.retained, StrBytes(o.will.topic), StrBytes(o.will.message)))
  }

  // The fields the parser sets, as they went in.
  function Expected(o: ConnectData): ConnectIn {
    ConnectIn(o.cleansession, o.keepAlive, StrBytes(o.clientID), WillIn(o),
              Opt(Present(o.username), o.username), Opt(Present(o.password), o.password))
  }

  lemma FlagBits(c: nat, w: nat, q: nat, t: nat, p: nat, u: nat)
    requires c < 2 && w < 2 && q < 4 && t < 2 && p < 2 && u < 2
    ensures var f := FlagByte(c, w, q, t, p, u);
            && f / 2 % 2 == c && f / 4 % 2 == w && f / 8 % 4 == q && f / 32 % 2 == t && f / 64 % 2 == p && f / 128 == u
  {
    var f := c * 2 + w * 4 + q * 8 + t * 32 + p * 64 + u * 128;
    assert f / 2 == c + w * 2 + q * 4 + t * 16 + p * 32 + u * 64;
    assert f / 4 == w + q * 2 + t * 8 + p * 16 + u * 32;
    assert f / 8 == q + t * 4 + p * 8 + u * 16;
    assert f / 32 == t + p * 2 + u * 4;
    assert f / 64 == p + u * 2;
  }

  lemma FlagsRoundTrip(o: ConnectData)
    requires Short(o)
    ensures var f := Flags(o);
            && f / 2 % 2 == o.cleansession && (f / 4 % 2 == 1 <==> o.willFlag != 0)
            && (f / 64 % 2 == 1 <==> Present(o.password)) && (f / 128 == 1 <==> Present(o.username))
            && (o.willFlag != 0 ==> f / 8 % 4 == o.will.qos && f / 32 % 2 == o.will.retained)
  {
    hide FlagByte, Present;
    var w := o.willFlag != 0;
    assert o.cleansession % 2 == o.cleansession;
    assert o.will.qos % 4 == o.will.qos && o.will.retained % 2 == o.will.retained;
    FlagBits(o.cleansession, Bit(w), if w then o.will.qos else 0, if w then o.will.retained else 0,
             Bit(Present(o.password)), Bit(Present(o.username)));
  }

  lemma CredentialsRoundTrip(o: ConnectData, flags: byte, clientID: bytes, will: Option<Will>)
    requires Short(o) && flags == Flags(o)
    ensures ParseCredentials(flags, o.keepAlive, clientID, will, Credentials(o)) ==
            if CredentialsAccepted(o) then
              ConnectIn(o.cleansession, o.keepAlive, clientID, will,
                        Opt(Present(o.username), o.username), Opt(Present(o.password), o.password))
            else ConnectBad
  {
    hide Flags, U16, TakeString, StrBytes;
    FlagsRoundTrip(o);
    var u, p := StrBytes(o.username), StrBytes(o.password);
    if Present(o.username) {
      TakePrefixed(u, Optional(Present(o.password), p));
      if Present(o.password) {
        assert Prefixed(p) + [] == Prefixed(p);
        TakePrefixed(p, []);
      }
    }
  }

  lemma PayloadRoundTrip(o: ConnectData)
    requires Short(o)
    ensures ParsePayload(Flags(o), o.keepAlive, Payload(o))
         == if CredentialsAccepted(o) then Expected(o) else ConnectBad
  {
    hide Flags, U16, TakeString, StrBytes, Credentials, ParseCredentials, Prefixed;
    FlagsRoundTrip(o);
    TakePrefixed(StrBytes(o.clientID), WillBytes(o) + Credentials(o));
    CredentialsRoundTrip(o, Flags(o), StrBytes(o.clientID), WillIn(o));
    var t, m := StrBytes(o.will.topic), StrBytes(o.will.message);
    if o.willFlag != 0 {
      assert WillBytes(o) + Credentials(o) == Prefixed(t) + (Prefixed(m) + Credentials(o));
      TakePrefixed(t, Prefixed(m) + Credentials(o));
      TakePrefixed(m, Credentials(o));
    } else {
      assert WillBytes(o) + Credentials(o) == Credentials(o);
    }
  }

  lemma BodyRoundTrip(o: ConnectData, after: bytes)
    requires Usable(o) && Short(o) && |after| >= 4
    ensures ParseBody(ConnectBody(o), after) == if CredentialsAccepted(o) then Expected(o) else ConnectBad
  {
    hide Flags, U16, TakeString, Payload, ParsePayload, Prefixed, Expected;
    var name := if o.version == 4 then MQTT else MQISDP;
    var v: bytes := [if o.version == 4 then 4 else 3];
    var tail := v + [Flags(o)] + U16(o.keepAlive) + Payload(o);
    assert ConnectBody(o) == Prefixed(name) + tail;
    TakePrefixed(name, tail);
    var s := tail + after;
    assert s[0] == v[0] && s[1] == Flags(o) && tail[4..] == Payload(o);
    assert s[2..] == U16(o.keepAlive) + (Payload(o) + after);
    U16RoundTrip(o.keepAlive, Payload(o) + after);
    PayloadRoundTrip(o);
  }

  predicate Fits(s: Option<bytes>) { s.Some? ==> |s.value| < 65536 }

  lemma TakenFits(b: bytes)
    ensures TakeString(b).Some? ==> |TakeString(b).value.0| < 65536
  {
  }

  lemma CredentialsFit(flags: byte, keepAlive: nat, clientID: bytes, will: Option<Will>, b: bytes)
    ensures var c := ParseCredentials(flags, keepAlive, clientID, will, b);
            c.ConnectIn? ==> c.clientID == clientID && c.will == will && Fits(c.username) && Fits(c.password)
  {
    hide TakeString;
    var u := TakeString(b);
    TakenFits(b);
    if u.Some? {
      TakenFits(u.value.1);
    }
  }

  // No parsed string is longer than its two-byte length can say.
  lemma ParsedFit(body: bytes, after: bytes)
    requires |after| >= 4
    ensures var c := ParseBody(body, after);
            c.ConnectIn? ==>
              && |c.clientID| < 65536 && Fits(c.username) && Fits(c.password)
              && (c.will.Some? ==> |c.will.value.topic| < 65536 && |c.will.value.message| < 65536)
  {
    hide CheckVersion, TakeString, ParseCredentials;
    var t := TakeString(body);
    if t.Some? && |t.value.1| >= 4 {
      var s := t.value.1 + after;
      var b, flags, keepAlive := t.value.1[4..], s[1], ReadU16(s[2..]);
      var c := TakeString(b);
      TakenFits(b);
      if c.Some? {
        CredentialsFit(flags, keepAlive, c.value.0, None, c.value.1);
        var w := TakeString(c.value.1);
        TakenFits(c.value.1);
        if w.Some? {
          var m := TakeString(w.value.1);
          TakenFits(w.value.1);
          if m.Some? {
            var will := Will(flags / 8 % 4, flags / 32 % 2, w.value.0, m.value.0);
            CredentialsFit(flags, keepAlive, c.value.0, Some(will), m.value.1);
          }
        }
      }
    }
  }

  // Parsing inverts serializing on every field the parser sets, for exactly the options whose
  // strings fit their lengths and whose credentials the parser admits; such lengths with other
  // credentials it refuses.
  lemma ConnectRoundTrip(o: ConnectData, rest: bytes)
    requires Usable(o) && Typed(o) && ConnectLength(o) <= MAX_REMAINING && |rest| >= 4
    ensures var mem, len := ConnectPacket(o) + rest, |ConnectPacket(o)|;
            && Parsable(mem, len)
            && (ParseConnect(mem, len) == Expected(o) <==> LengthsFit(o) && CredentialsAccepted(o))
            && (LengthsFit(o) && !CredentialsAccepted(o) ==> ParseConnect(mem, len) == ConnectBad)
  {
    hide EncodeLen, DecodeLen, HeaderByte, HeaderType, ConnectBody, ParseBody, ConnectLength, StrBytes,
         CredentialsAccepted;
    ConnectLengthExact(o);
    PacketFramed(HeaderByte(CONNECT, 0, 0, 0), ConnectBody(o), rest);
    HeaderRoundTrip(CONNECT, 0, 0, 0);
    if LengthsFit(o) {
      BodyRoundTrip(o, rest);
    }
    ParsedFit(ConnectBody(o), rest);
  }
}
