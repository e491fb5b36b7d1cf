/**
A message from one client to another: serialized, sent with arbitrary partial writes, received in
arbitrary pieces, read back and parsed.
*/
module EndToEnd {
  import opened Basics
  import opened Wire
  import opened Publish
  import opened Network
  import opened ClientSession
  import opened SessionLog
  import PacketReader

  // A message as a packet, and as its parser reports it.
  function Written(dup: nat, m: Outgoing): bytes { PublishPacket(dup, m.qos, m.retained, m.id, m.topic, m.payload) }

  function AsRead(dup: nat, m: Outgoing): PublishIn {
    PublishIn(dup, m.qos, m.retained, if m.qos > 0 then m.id else 0, m.topic, m.payload, |m.payload|)
  }

  // The bytes that reach the wire are those of the packet.
  method SendMessage(c: Client, dup: nat, m: Outgoing) returns (ok: bool)
    requires c.Buffers() && m.qos < 3 && PacketLen(|PublishBody(m.qos, m.id, m.topic, m.payload)|) <= c.max
    modifies c.net, c.sendbuf
    ensures old(c.net.wsched) == [] ==> ok
    ensures old(c.net.Eager()) && |Written(dup, m)| <= old(c.net.Patience()) + 1 ==> ok
    ensures ok ==> c.net.tx == old(c.net.tx) + Written(dup, m)
  {
    hide Write, PublishPacket, PacketLen;
    var topic := MqttString(Some(m.topic), None);
    PacketLenGrows(|PublishBody(m.qos, m.id, m.topic, m.payload)|);
    var len := SerializePublish(c.sendbuf, c.max, dup, m.qos, m.retained, m.id, topic, m.payload);
    WrittenPrefix(old(c.sendbuf[..]), Written(dup, m));
    ghost var a;
    var rc;
    rc, a := c.SendPacket(len);
    assert a.packet[..|a.packet|] == a.packet;
    ok := rc == SUCCESS;
  }

  lemma PublishType(dup: nat, qos: nat, retained: nat)
    ensures HeaderType(HeaderByte(PUBLISH, dup, qos, retained)) == PUBLISH
  {
    HeaderRoundTrip(PUBLISH, dup, qos, retained);
  }

  method ReceiveMessage(c: Client, behind: bytes, ghost dup: nat, ghost m: Outgoing, ghost more: bytes)
    returns (got: PublishIn)
    requires c.Buffers() && |behind| == 2 && c.net.Smooth()
    requires dup < 2 && m.qos < 3 && m.retained < 2 && m.id < 65536 && |m.topic| < 65536
    requires |Written(dup, m)| <= c.max
    requires c.net.rx == Written(dup, m) + more
    modifies c.net, c.readbuf
    ensures got == AsRead(dup, m)
    ensures c.net.rx == more
  {
    hide PublishBody, HeaderByte, HeaderType, PacketReader.Complete, PacketReader.BlockingOut, Framed, EncodeLen,
         ParsePublish;
    ghost var h := HeaderByte(PUBLISH, dup, m.qos, m.retained);
    ghost var body := PublishBody(m.qos, m.id, m.topic, m.payload);
    ghost var p := Packet(h, body);
    PublishType(dup, m.qos, m.retained);
    PacketReader.ReadsPacket(h, body, more, c.max);
    ghost var raw;
    var rc;
    rc, raw := c.ReadPacket();
    TakenOff(raw, c.net.rx, p + more);
    assert c.net.rx == more;
    var mem := c.readbuf[..] + behind;
    ghost var rest := c.readbuf[..][|p|..] + behind;
    assert mem == p + rest by { assert c.readbuf[..] == c.readbuf[..|p|] + c.readbuf[..][|p|..]; }
    PublishRoundTrip(dup, m.qos, m.retained, m.id, m.topic, m.payload, rest);
    var n;
    n, got := DeserializePublish(mem);
  }

  // For every message that fits both buffers, every pattern of partial writes and timer answers and
  // every division of the stream into pieces: what was sent in full is received unchanged, and the
  // bytes after it are left for the next packet. It is sent in full whenever every write takes
  // something and the timer allows as many writes as there are bytes, the last one excepted.
  method Transfer(dup: nat, m: Outgoing, size: nat, size': nat, w: seq<int>, t: seq<bool>, r: seq<int>,
                  more: bytes, behind: bytes)
    returns (ok: bool, got: PublishIn, left: bytes)
    requires 5 <= size <= MAX_REMAINING && 5 <= size' <= MAX_REMAINING && |behind| == 2
    requires dup < 2 && m.qos < 3 && m.retained < 2 && m.id < 65536 && |m.topic| < 65536
    requires PacketLen(|PublishBody(m.qos, m.id, m.topic, m.payload)|) <= size
    requires |Written(dup, m)| <= size'
    requires forall i :: 0 <= i < |r| ==> r[i] > 0
    ensures ok ==>
              && got == AsRead(dup, m)
              && left == more
    ensures w == [] ==> ok
    ensures AllPositive(w) && |Written(dup, m)| <= LeadingNo(t) + 1 ==> ok
  {
    hide Written, PublishBody, PacketLen, Socket.Kept, Client.Mirrors, Client.Holds, Client.Flows, Client.Orderly,
         AllGenuine, Replay;
    got, left := PublishBad, [];
    var net := new Socket([], [], w, t, []);
    var sender := new Client(net, size, 0, true, 0);
    ok := SendMessage(sender, dup, m);
    if ok {
      var net' := new Socket(net.tx + more, r, [], [], []);
      var receiver := new Client(net', size', 0, true, 0);
      got := ReceiveMessage(receiver, behind, dup, m, more);
      left := net'.rx;
    }
  }
}
