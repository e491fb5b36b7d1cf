/**
The byte transport of src/MQTTNetworkUtil.h over a socket whose behaviour is arbitrary: the results
of recv and send, the timers and the contents of uninitialised memory come from scripts.
*/
module Network {
  import opened Wire

  const WOULD_BLOCK := -3001

  // MQTT expects 0 on a timeout and -1 on a closed socket.
  function ConvertError(e: int): int {
    if e == WOULD_BLOCK then 0 else if e == 0 then -1 else e
  }

  predicate AllPositive(s: seq<int>) { forall i :: 0 <= i < |s| ==> s[i] > 0 }

  function LeadingNo(t: seq<bool>): nat { if t == [] || t[0] then 0 else 1 + LeadingNo(t[1..]) }

  class Socket {
    var rx: bytes          // bytes still to be received
    var rsched: seq<int>   // results of recv: k > 0 at most k bytes; then everything asked for
    var tx: bytes          // bytes sent so far
    var wsched: seq<int>   // results of send, likewise
    var ticks: seq<bool>   // answers of the timers to "expired?"; then always yes
    var stray: seq<nat>    // values of uninitialised or foreign memory; then 0

    constructor (incoming: bytes, r: seq<int>, w: seq<int>, t: seq<bool>, s: seq<nat>)
      ensures rx == incoming && rsched == r && wsched == w && ticks == t && stray == s && tx == []
    {
      rx, rsched, tx, wsched, ticks, stray := incoming, r, [], w, t, s;
    }

    // No error, no timeout and no close lies ahead of the receiver.
    ghost predicate Smooth()
      reads this`rsched
    {
      AllPositive(rsched)
    }

    // Nor of the sender, however little each send takes.
    ghost predicate Eager()
      reads this`wsched
    {
      AllPositive(wsched)
    }

    // How often the timers will say that there is time left.
    ghost function Patience(): nat
      reads this`ticks
    {
      LeadingNo(ticks)
    }

    // Whatever was promised of the rest still is.
    twostate predicate Kept()
      reads this
    {
      && (old(Smooth()) ==> Smooth()) && (old(Eager()) ==> Eager()) && (old(wsched) == [] ==> wsched == [])
      && |ticks| <= old(|ticks|)
    }

    method Recv(n: nat) returns (ret: int, got: bytes)
      requires n > 0
      modifies this`rx, this`rsched
      ensures ret <= n && |got| == (if ret > 0 then ret else 0)
      ensures got + rx == old(rx)
      ensures old(Smooth()) ==> Smooth() && (old(rx) != [] ==> ret > 0)
    {
      var r := n;
      if rsched != [] {
        r, rsched := rsched[0], rsched[1..];
      }
      var k := if r <= n then r else n;
      k := if k <= |rx| then k else |rx|;
      if r <= 0 {
        return r, [];
      }
      if k == 0 {
        return WOULD_BLOCK, [];
      }
      got, rx := rx[..k], rx[k..];
      ret := k;
    }

    method Send(data: bytes) returns (ret: int)
      requires data != []
      modifies this`tx, this`wsched
      ensures ret <= |data|
      ensures tx == old(tx) + if ret > 0 then data[..ret] else []
      ensures old(wsched) == [] ==> wsched == [] && ret == |data|
      ensures old(Eager()) ==> Eager() && ret > 0
      ensures old(wsched) != [] && old(wsched)[0] <= 0 ==> ret == old(wsched)[0]
    {
      var r := |data|;
      if wsched != [] {
        r, wsched := wsched[0], wsched[1..];
      }
      if r <= 0 {
        return r;
      }
      ret := if r <= |data| then r else |data|;
      tx := tx + data[..ret];
    }

    // accumulate_mqtt_read: all n bytes, or a result that differs from n.
    method Read(buf: array<byte>, at: nat, n: nat) returns (rc: int, ghost taken: bytes)
      requires at + n <= buf.Length
      modifies this`rx, this`rsched, buf
      ensures taken + rx == old(rx) && |taken| <= n
      ensures buf[..] == Write(old(buf[..]), at, taken)
      ensures rc == n <==> |taken| == n
      ensures old(Smooth()) ==> Smooth() && (n <= |old(rx)| ==> rc == n)
    {
      hide Write;
      var remaining, ptr := n, at;
      taken := [];
      WriteNothing(buf[..], at);
      while remaining > 0
        invariant 0 <= remaining <= n && |taken| == n - remaining && ptr == at + |taken|
        invariant taken + rx == old(rx)
        invariant buf[..] == Write(old(buf[..]), at, taken)
        invariant old(Smooth()) ==> Smooth()
      {
        var ret, got := Recv(remaining);
        if ret > 0 {
          var _ := WriteBytes(buf, ptr, got);
          WriteThen(old(buf[..]), at, taken, got);
          assert taken + (got + rx) == taken + got + rx;
          taken := taken + got;
          remaining, ptr := remaining - ret, ptr + ret;
        } else {
          return ConvertError(ret), taken;
        }
      }
      rc := n;
    }

    // mqtt_write
    method WriteSome(data: bytes) returns (rc: int)
      requires data != []
      modifies this`tx, this`wsched
      ensures rc <= |data|
      ensures tx == old(tx) + if rc > 0 then data[..rc] else []
      ensures old(wsched) == [] ==> wsched == [] && rc == |data|
      ensures old(Eager()) ==> Eager() && rc > 0
      ensures old(wsched) != [] && old(wsched)[0] == -3001 ==> rc == 0
      ensures old(wsched) != [] && old(wsched)[0] == 0 ==> rc == -1
      ensures old(wsched) != [] && old(wsched)[0] < 0 && old(wsched)[0] != -3001 ==> rc == old(wsched)[0]
    {
      var ret := Send(data);
      rc := if ret > 0 then ret else ConvertError(ret);
    }

    method Expired() returns (yes: bool)
      modifies this`ticks
      ensures yes || |ticks| < old(|ticks|)
      ensures |ticks| <= old(|ticks|)
      ensures yes <==> old(Patience()) == 0
      ensures old(Patience()) > 0 ==> Patience() == old(Patience()) - 1
    {
      yes := true;
      if ticks != [] {
        yes, ticks := ticks[0], ticks[1..];
      }
    }

    method Stray() returns (v: nat)
      modifies this`stray
      ensures v < 65536
    {
      v := 0;
      if stray != [] {
        v, stray := stray[0] % 65536, stray[1..];
      }
    }
  }
}
