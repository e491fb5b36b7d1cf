/**
SUBSCRIBE and UNSUBSCRIBE: MQTTSubscribeClient.c, MQTTSubscribeServer.c, MQTTUnsubscribeClient.c and
MQTTUnsubscribeServer.c (sections 3.8 and 3.10 of MQTT Version 3.1.1). The two differ in their type
and in the QoS byte after each filter, which the parameter withQos stands for.
*/
module Subscriptions {
  import opened Basics
  import opened Wire

  const SUBSCRIBE := 8
  const UNSUBSCRIBE := 10

  datatype Request = Request(filter: bytes, qos: int)

  // An int stored through a char and read back as one; whether char is signed is up to the compiler.
  function ToChar(n: int): byte { n % 256 }
  function CharValue(signed: bool, b: byte): int { if signed && b >= 128 then b - 256 else b }

  function EntryBytes(withQos: bool, r: Request): bytes {
    Prefixed(r.filter) + if withQos then [ToChar(r.qos)] else []
  }

  function Entries(withQos: bool, rs: seq<Request>): bytes {
    if rs == [] then [] else EntryBytes(withQos, rs[0]) + Entries(withQos, rs[1..])
  }

  lemma {:induction false} EntriesSnoc(withQos: bool, rs: seq<Request>, r: Request)
    ensures Entries(withQos, rs + [r]) == Entries(withQos, rs) + EntryBytes(withQos, r)
  {
    if rs == [] {
      assert rs + [r] == [r] && [r][1..] == [];
      assert EntryBytes(withQos, r) + [] == [] + EntryBytes(withQos, r);
    } else {
      assert (rs + [r])[1..] == rs[1..] + [r];
      EntriesSnoc(withQos, rs[1..], r);
      assert EntryBytes(withQos, rs[0]) + (Entries(withQos, rs[1..]) + EntryBytes(withQos, r))
          == EntryBytes(withQos, rs[0]) + Entries(withQos, rs[1..]) + EntryBytes(withQos, r);
    }
  }

  function Body(withQos: bool, id: nat, rs: seq<Request>): bytes { U16(id) + Entries(withQos, rs) }

  function RequestPacket(withQos: bool, dup: nat, id: nat, rs: seq<Request>): bytes {
    Packet(HeaderByte(if withQos then SUBSCRIBE else UNSUBSCRIBE, dup, 1, 0), Body(withQos, id, rs))
  }

  // The requests that filters and QoS values stand for; UNSUBSCRIBE has no QoS values.
  function Requests(filters: seq<MqttString>, qoss: seq<int>): (rs: seq<Request>)
    requires |qoss| == |filters|
    ensures |rs| == |filters|
  {
    seq(|filters|, i requires 0 <= i < |filters| => Request(StrBytes(filters[i]), qoss[i]))
  }

  function CountedLength(withQos: bool, filters: seq<MqttString>): nat {
    if filters == [] then 0
    else
      CountedLength(withQos, filters[..|filters| - 1])
      + 2 + StrLen(filters[|filters| - 1]) + if withQos then 1 else 0
  }

  // The summed length functions predict the body size exactly where each length counted is the
  // one written.
  method RequestLength(withQos: bool, filters: seq<MqttString>, ghost id: nat, ghost qoss: seq<int>) returns (len: nat)
    requires |qoss| == |filters|
    ensures len == 2 + CountedLength(withQos, filters)
    ensures (forall i :: 0 <= i < |filters| ==> Counted(filters[i])) ==>
              len == |Body(withQos, id, Requests(filters, qoss))|
  {
    hide EntryBytes;
    len := 2;
    ghost var rs := Requests(filters, qoss);
    for i := 0 to |filters|
      invariant len == 2 + CountedLength(withQos, filters[..i])
      invariant (forall j :: 0 <= j < i ==> Counted(filters[j])) ==> len == 2 + |Entries(withQos, rs[..i])|
    {
      assert filters[..i + 1][..i] == filters[..i];
      EntriesSnoc(withQos, rs[..i], rs[i]);
      assert rs[..i + 1] == rs[..i] + [rs[i]];
      EntrySize(withQos, rs[i]);
      len := len + 2 + StrLen(filters[i]) + if withQos then 1 else 0;
    }
    assert rs[..|filters|] == rs && filters[..|filters|] == filters;
  }

  lemma EntrySize(withQos: bool, r: Request)
    ensures |EntryBytes(withQos, r)| == 2 + |r.filter| + if withQos then 1 else 0
  {
  }

  method WriteEntries(buf: array<byte>, start: nat, withQos: bool, filters: seq<MqttString>, qoss: seq<int>)
    returns (ptr: nat)
    requires |qoss| == |filters|
    requires start + |Entries(withQos, Requests(filters, qoss))| <= buf.Length
    modifies buf
    ensures ptr == start + |Entries(withQos, Requests(filters, qoss))|
    ensures buf[..] == Write(old(buf[..]), start, Entries(withQos, Requests(filters, qoss)))
  {
    hide EntryBytes, Write;
    ptr := start;
    ghost var rs, b0 := Requests(filters, qoss), buf[..];
    WriteNothing(b0, start);
    for i := 0 to |filters|
      invariant ptr == start + |Entries(withQos, rs[..i])| && ptr <= buf.Length
      invariant buf[..] == Write(b0, start, Entries(withQos, rs[..i]))
    {
      EntriesSnoc(withQos, rs[..i], rs[i]);
      assert rs[..i + 1] == rs[..i] + [rs[i]];
      EntriesPrefix(withQos, rs, i + 1);
      ptr := WriteEntry(buf, ptr, withQos, filters[i], qoss[i]);
      WriteThen(b0, start, Entries(withQos, rs[..i]), EntryBytes(withQos, rs[i]));
    }
    assert rs[..|filters|] == rs;
  }

  lemma {:induction false} EntriesPrefix(withQos: bool, rs: seq<Request>, i: nat)
    requires i <= |rs|
    ensures |Entries(withQos, rs[..i])| <= |Entries(withQos, rs)|
    decreases |rs| - i
  {
    hide EntryBytes;
    if i < |rs| {
      EntriesPrefix(withQos, rs, i + 1);
      EntriesSnoc(withQos, rs[..i], rs[i]);
      assert rs[..i + 1] == rs[..i] + [rs[i]];
    } else {
      assert rs[..i] == rs;
    }
  }

  method WriteEntry(buf: array<byte>, start: nat, withQos: bool, filter: MqttString, qos: int) returns (ptr: nat)
    requires start + |EntryBytes(withQos, Request(StrBytes(filter), qos))| <= buf.Length
    modifies buf
    ensures ptr == start + |EntryBytes(withQos, Request(StrBytes(filter), qos))|
    ensures buf[..] == Write(old(buf[..]), start, EntryBytes(withQos, Request(StrBytes(filter), qos)))
  {
    hide Write, U16, StrBytes;
    ghost var b0 := buf[..];
    ptr := WriteString(buf, start, filter);
    if withQos {
      ptr := WriteChar(buf, ptr, ToChar(qos));
      WriteThen(b0, start, Prefixed(StrBytes(filter)), [ToChar(qos)]);
    } else {
      assert EntryBytes(false, Request(StrBytes(filter), qos)) == Prefixed(StrBytes(filter));
    }
  }

  method SerializeRequest(buf: array<byte>, buflen: nat, withQos: bool, dup: nat, id: nat,
                          filters: seq<MqttString>, qoss: seq<int>) returns (rc: int)
    requires buflen <= buf.Length && |qoss| == |filters| && forall i :: 0 <= i < |filters| ==> Counted(filters[i])
    requires |Body(withQos, id, Requests(filters, qoss))| <= MAX_REMAINING || buflen <= MAX_REMAINING
    modifies buf
    ensures rc == BUFFER_TOO_SHORT <==> PacketLen(|Body(withQos, id, Requests(filters, qoss))|) > buflen
    ensures rc == BUFFER_TOO_SHORT ==> buf[..] == old(buf[..])
    ensures var p := RequestPacket(withQos, dup, id, Requests(filters, qoss));
            rc != BUFFER_TOO_SHORT ==> 0 < rc == |p| <= buflen && buf[..] == Write(old(buf[..]), 0, p)
  {
    hide EncodeLen, HeaderByte, Write, U16, PacketLen, Entries, Requests;
    ghost var b0, rs := buf[..], Requests(filters, qoss);
    var remLen := RequestLength(withQos, filters, id, qoss);
    PacketLenGrows(remLen);
    if PacketLen(remLen) > buflen {
      return BUFFER_TOO_SHORT;
    }
    PacketLenExact(remLen);
    var header := HeaderByte(if withQos then SUBSCRIBE else UNSUBSCRIBE, dup, 1, 0);
    ghost var h := [header] + EncodeLen(remLen);
    var ptr := WriteHeader(buf, header, remLen);
    ptr := WriteInt(buf, ptr, id);
    WriteThen(b0, 0, h, U16(id));
    ptr := WriteEntries(buf, ptr, withQos, filters, qoss);
    WriteThen(b0, 0, h + U16(id), Entries(withQos, rs));
    assert h + U16(id) + Entries(withQos, rs) == h + Body(withQos, id, rs);
    rc := ptr;
  }

  // ---------- parsing ----------

  datatype Parsed = Parsed(list: seq<Request>, complete: bool)

  function ParseEntries(signed: bool, withQos: bool, b: bytes): Parsed
    decreases |b|
  {
    if b == [] then Parsed([], true)
    else
      var t := TakeString(b);
      if t.None? || (withQos && t.value.1 == []) then Parsed([], false)
      else
        var (filter, rest) := t.value;
        var p := ParseEntries(signed, withQos, if withQos then rest[1..] else rest);
        p.(list := [Request(filter, if withQos then CharValue(signed, rest[0]) else 0)] + p.list)
  }

  // rc is 1 for a packet that parses to its end, and otherwise the size of the length field.
  datatype RequestIn = WrongType | RequestIn(rc: nat, dup: nat, id: nat, list: seq<Request>)

  function ParseRequest(signed: bool, withQos: bool, mem: bytes): RequestIn
    requires Framed(mem, 2)
  {
    if HeaderType(mem[0]) != (if withQos then SUBSCRIBE else UNSUBSCRIBE) then WrongType
    else
      var b := Wire.Body(mem);
      var p := ParseEntries(signed, withQos, if |b| < 2 then [] else b[2..]);
      RequestIn(if p.complete then 1 else DecodeLen(mem[1..]).len, HeaderDup(mem[0]),
                ReadU16(b + mem[BodyEnd(mem)..]), p.list)
  }

  // The while loop of the two parsers, cursor cur, over memory that ends at enddata.
  method ReadEntries(signed: bool, withQos: bool, mem: bytes, start: nat, enddata: nat)
    returns (list: seq<Request>, complete: bool)
    requires enddata <= |mem|
    ensures Parsed(list, complete)
         == ParseEntries(signed, withQos, if start <= enddata then mem[start..enddata] else [])
  {
    hide ParseEntries;
    list, complete := [], true;
    ParseNothing(signed, withQos);
    var curdata := start;
    ghost var whole := ParseEntries(signed, withQos, if start <= enddata then mem[start..enddata] else []);
    while curdata < enddata
      invariant start <= enddata ==> start <= curdata <= enddata
      invariant start > enddata ==> curdata == start
      invariant var p := ParseEntries(signed, withQos, if curdata <= enddata then mem[curdata..enddata] else []);
                whole == Parsed(list + p.list, p.complete)
      decreases enddata - curdata
    {
      var ok, entry, next := ReadEntry(signed, withQos, mem, curdata, enddata);
      if !ok {
        assert list + [] == list;
        return list, false;
      }
      Prepended(list, entry, ParseEntries(signed, withQos, mem[next..enddata]).list);
      list := list + [entry];
      curdata := next;
    }
    assert list + [] == list && mem[enddata..enddata] == [];
  }

  // One filter, and its QoS.
  method ReadEntry(signed: bool, withQos: bool, mem: bytes, curdata: nat, enddata: nat)
    returns (ok: bool, entry: Request, next: nat)
    requires curdata < enddata <= |mem|
    ensures !ok ==> ParseEntries(signed, withQos, mem[curdata..enddata]) == Parsed([], false)
    ensures ok ==>
              && curdata < next <= enddata
              && var p := ParseEntries(signed, withQos, mem[next..enddata]);
                 ParseEntries(signed, withQos, mem[curdata..enddata]) == Parsed([entry] + p.list, p.complete)
  {
    hide TakeString, CharValue, ParseEntries;
    ParseStep(signed, withQos, mem[curdata..enddata]);
    TakeShorter(mem[curdata..enddata]);
    entry := Request([], 0);
    var filter;
    ok, filter, next := ReadString(mem, curdata, enddata);
    if !ok {
      return;
    }
    ghost var rest := mem[next..enddata];
    var qos := 0;
    if withQos {
      if next >= enddata {
        return false, entry, next;
      }
      qos := CharValue(signed, mem[next]);
      assert rest[0] == mem[next] && rest[1..] == mem[next + 1..enddata];
      next := next + 1;
    }
    entry := Request(filter, qos);
  }

  lemma Prepended(list: seq<Request>, r: Request, rest: seq<Request>)
    ensures list + ([r] + rest) == list + [r] + rest
  {
  }

  lemma ParseNothing(signed: bool, withQos: bool)
    ensures ParseEntries(signed, withQos, []) == Parsed([], true)
  {
  }

  lemma ParseStep(signed: bool, withQos: bool, b: bytes)
    requires b != []
    ensures var t := TakeString(b);
            if t.None? || (withQos && t.value.1 == []) then ParseEntries(signed, withQos, b) == Parsed([], false)
            else
              var (filter, rest) := t.value;
              var p := ParseEntries(signed, withQos, if withQos then rest[1..] else rest);
              ParseEntries(signed, withQos, b)
              == Parsed([Request(filter, if withQos then CharValue(signed, rest[0]) else 0)] + p.list, p.complete)
  {
    hide TakeString;
  }

  lemma TakeShorter(s: bytes)
    ensures TakeString(s).Some? ==> |TakeString(s).value.1| < |s|
  {
  }

  method DeserializeRequest(signed: bool, withQos: bool, mem: bytes) returns (r: RequestIn)
    requires Framed(mem, 2)
    ensures r == ParseRequest(signed, withQos, mem)
  {
    hide DecodeLen, ParseEntries, HeaderType, HeaderDup;
    if HeaderType(mem[0]) != (if withQos then SUBSCRIBE else UNSUBSCRIBE) {
      return WrongType;
    }
    var n, mylen := DecodeBuf(mem, 1);
    var curdata := 1 + n;
    var enddata := curdata + mylen;
    assert mem[curdata..enddata] + mem[enddata..] == mem[curdata..];
    var id := ReadU16(mem[curdata..]);
    curdata := curdata + 2;
    if 2 <= mylen {
      SliceOfSlice(mem, 1 + n, enddata, 2, mylen);
    }
    var list, complete := ReadEntries(signed, withQos, mem, curdata, enddata);
    r := RequestIn(if complete then 1 else n, HeaderDup(mem[0]), id, list);
  }

  // ---------- round trip ----------

  // What a filter and its QoS must satisfy to survive the wire.
  predicate Carried(signed: bool, withQos: bool, r: Request) {
    |r.filter| < 65536 && (if !withQos then r.qos == 0 else if signed then -128 <= r.qos < 128 else 0 <= r.qos < 256)
  }

  predicate AllCarried(signed: bool, withQos: bool, rs: seq<Request>) {
    forall i :: 0 <= i < |rs| ==> Carried(signed, withQos, rs[i])
  }

  lemma {:induction false} EntriesRoundTrip(signed: bool, withQos: bool, rs: seq<Request>)
    requires AllCarried(signed, withQos, rs)
    ensures ParseEntries(signed, withQos, Entries(withQos, rs)) == Parsed(rs, true)
  {
    hide U16, TakeString;
    if rs != [] {
      var r, tail := rs[0], Entries(withQos, rs[1..]);
      var q: bytes := if withQos then [ToChar(r.qos)] else [];
      EntriesRoundTrip(signed, withQos, rs[1..]);
      assert EntryBytes(withQos, r) + tail == Prefixed(r.filter) + (q + tail);
      TakePrefixed(r.filter, q + tail);
      assert withQos ==> (q + tail)[1..] == tail;
      assert !withQos ==> q + tail == tail;
      assert rs == [r] + rs[1..];
    }
  }

  lemma {:induction false} ParsedAreCarried(signed: bool, withQos: bool, b: bytes)
    ensures AllCarried(signed, withQos, ParseEntries(signed, withQos, b).list)
    decreases |b|
  {
    var t := TakeString(b);
    if b != [] && t.Some? && !(withQos && t.value.1 == []) {
      ParsedAreCarried(signed, withQos, if withQos then t.value.1[1..] else t.value.1);
    }
  }

  // Parsing a serialized list returns the packet identifier and the same list in order, for
  // exactly the lists whose members the wire format can carry.
  lemma RequestRoundTrip(signed: bool, withQos: bool, dup: nat, id: nat, rs: seq<Request>, rest: bytes)
    requires dup < 2 && id < 65536 && |rest| >= 2 && |Body(withQos, id, rs)| <= MAX_REMAINING
    ensures Framed(RequestPacket(withQos, dup, id, rs) + rest, 2)
    ensures AllCarried(signed, withQos, rs) <==>
            ParseRequest(signed, withQos, RequestPacket(withQos, dup, id, rs) + rest) == RequestIn(1, dup, id, rs)
  {
    hide EncodeLen, DecodeLen, U16, HeaderByte, HeaderType, HeaderDup, ParseEntries, Entries;
    var kind := if withQos then SUBSCRIBE else UNSUBSCRIBE;
    var body := Body(withQos, id, rs);
    PacketFramed(HeaderByte(kind, dup, 1, 0), body, rest);
    HeaderRoundTrip(kind, dup, 1, 0);
    assert body + rest == U16(id) + (Entries(withQos, rs) + rest);
    U16RoundTrip(id, Entries(withQos, rs) + rest);
    assert body[2..] == Entries(withQos, rs);
    if AllCarried(signed, withQos, rs) {
      EntriesRoundTrip(signed, withQos, rs);
    }
    ParsedAreCarried(signed, withQos, Entries(withQos, rs));
  }
}
