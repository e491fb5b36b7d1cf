/**
Bytes on the wire: buffers, the fixed header, two-byte integers, length-prefixed strings and the
variable-length Remaining Length field (MQTTPacket.c; section 2.2.3 of MQTT Version 3.1.1).
*/
module Wire {
  import opened Basics
  type byte = b: int | 0 <= b < 256
  type bytes = seq<byte>

  const MAX_REMAINING := 268435455
  const BUFFER_TOO_SHORT := -2

  // ---------- writing into a buffer ----------

  // The buffer s after x has been written at position p.
  ghost function Write(s: bytes, p: nat, x: bytes): (t: bytes)
    requires p + |x| <= |s|
    ensures |t| == |s|
  {
    s[..p] + x + s[p + |x|..]
  }

  lemma WriteNothing(s: bytes, p: nat)
    requires p <= |s|
    ensures Write(s, p, []) == s
  {
  }

  lemma WriteThen(s: bytes, p: nat, x: bytes, y: bytes)
    requires p + |x| + |y| <= |s|
    ensures Write(Write(s, p, x), p + |x|, y) == Write(s, p, x + y)
  {
    var t := Write(s, p, x);
    assert t[..p + |x|] == s[..p] + x;
    assert t[p + |x| + |y|..] == s[p + |x| + |y|..];
  }

  lemma WrittenPrefix(s: bytes, x: bytes)
    requires |x| <= |s|
    ensures Write(s, 0, x)[..|x|] == x
  {
  }

  method WriteChar(buf: array<byte>, ptr: nat, c: byte) returns (next: nat)
    requires ptr < buf.Length
    modifies buf
    ensures next == ptr + 1
    ensures buf[..] == Write(old(buf[..]), ptr, [c])
  {
    buf[ptr] := c;
    next := ptr + 1;
  }

  // memcpy
  method WriteBytes(buf: array<byte>, ptr: nat, x: bytes) returns (next: nat)
    requires ptr + |x| <= buf.Length
    modifies buf
    ensures next == ptr + |x|
    ensures buf[..] == Write(old(buf[..]), ptr, x)
  {
    hide Write;
    WriteNothing(buf[..], ptr);
    assert x[..0] == [];
    for i := 0 to |x|
      invariant buf[..] == Write(old(buf[..]), ptr, x[..i])
    {
      WriteThen(old(buf[..]), ptr, x[..i], [x[i]]);
      assert x[..i + 1] == x[..i] + [x[i]];
      var _ := WriteChar(buf, ptr + i, x[i]);
    }
    assert x[..|x|] == x;
    next := ptr + |x|;
  }

  // ---------- integers and strings ----------

  // Two bytes, most significant first; an integer above 65535 keeps its low 16 bits.
  function U16(n: nat): (r: bytes)
    ensures |r| == 2
  {
    [n / 256 % 256, n % 256]
  }

  function ReadU16(s: bytes): (n: nat)
    requires |s| >= 2
    ensures n < 65536
  {
    var hi: int, lo: int := s[0], s[1];
    256 * hi + lo
  }

  lemma U16RoundTrip(n: nat, rest: bytes)
    ensures ReadU16(U16(n) + rest) == n % 65536
  {
    assert n % 65536 == 256 * (n / 256 % 256) + n % 256;
  }

  method WriteInt(buf: array<byte>, ptr: nat, n: nat) returns (next: nat)
    requires ptr + 2 <= buf.Length
    modifies buf
    ensures next == ptr + 2
    ensures buf[..] == Write(old(buf[..]), ptr, U16(n))
  {
    next := WriteChar(buf, ptr, n / 256 % 256);
    next := WriteChar(buf, next, n % 256);
    WriteThen(old(buf[..]), ptr, [n / 256 % 256], [n % 256]);
  }

  // A string handed over as a C string, as data with a length, or both; None is the null pointer.
  datatype MqttString = MqttString(cstring: Option<bytes>, data: Option<bytes>)

  function DataOf(s: MqttString): bytes { if s.data.Some? then s.data.value else [] }

  // What writeMQTTString writes and what MQTTstrlen counts prefer different forms.
  function StrBytes(s: MqttString): bytes {
    if DataOf(s) != [] then DataOf(s)
    else if s.cstring.Some? then s.cstring.value
    else []
  }

  function StrLen(s: MqttString): nat {
    if s.cstring.Some? then |s.cstring.value| else |DataOf(s)|
  }

  predicate SingleForm(s: MqttString) { s.cstring.None? || DataOf(s) == [] }

  // The length counted is the length written.
  predicate Counted(s: MqttString) { StrLen(s) == |StrBytes(s)| }

  predicate Present(s: MqttString) { s.cstring.Some? || s.data.Some? }

  // This holds of every string in one form, and of one given in both forms exactly when the two
  // have the same length.
  lemma StrLenExact(s: MqttString)
    ensures Counted(s) <==> SingleForm(s) || |s.cstring.value| == |DataOf(s)|
  {
  }

  function Prefixed(x: bytes): bytes { U16(|x|) + x }

  method WriteString(buf: array<byte>, ptr: nat, s: MqttString) returns (next: nat)
    requires ptr + 2 + |StrBytes(s)| <= buf.Length
    modifies buf
    ensures next == ptr + 2 + |StrBytes(s)|
    ensures buf[..] == Write(old(buf[..]), ptr, Prefixed(StrBytes(s)))
  {
    ghost var x := StrBytes(s);
    if DataOf(s) != [] {
      next := WriteInt(buf, ptr, |DataOf(s)|);
      next := WriteBytes(buf, next, DataOf(s));
    } else if s.cstring.Some? {
      next := WriteInt(buf, ptr, |s.cstring.value|);
      next := WriteBytes(buf, next, s.cstring.value);
    } else {
      next := WriteInt(buf, ptr, 0);
      WriteNothing(buf[..], next);
    }
    WriteThen(old(buf[..]), ptr, U16(|x|), x);
  }

  // Cuts a length-prefixed string off the front of s.
  function TakeString(s: bytes): Option<(bytes, bytes)> {
    if |s| < 2 || |s| - 2 < ReadU16(s) then None
    else Some((s[2..2 + ReadU16(s)], s[2 + ReadU16(s)..]))
  }

  lemma TakePrefixed(x: bytes, rest: bytes)
    requires |x| < 65536
    ensures TakeString(Prefixed(x) + rest) == Some((x, rest))
  {
    var s := Prefixed(x) + rest;
    assert s == U16(|x|) + (x + rest);
    U16RoundTrip(|x|, x + rest);
    assert s[2..2 + |x|] == x && s[2 + |x|..] == rest;
  }

  lemma SliceOfSlice(s: bytes, a: nat, b: nat, i: nat, j: nat)
    requires a <= b <= |s| && i <= j <= b - a
    ensures s[a..b][i..j] == s[a + i..a + j]
  {
    var l, r := s[a..b][i..j], s[a + i..a + j];
    assert |l| == |r| && forall k :: 0 <= k < |l| ==> l[k] == r[k];
  }

  // readMQTTLenString on memory mem, between cur and end.
  method ReadString(mem: bytes, cur: nat, end: nat) returns (ok: bool, s: bytes, next: nat)
    requires cur <= end <= |mem|
    ensures ok <==> TakeString(mem[cur..end]).Some?
    ensures ok ==> next <= end && TakeString(mem[cur..end]) == Some((s, mem[next..end]))
  {
    ok, s, next := false, [], cur;
    if end - cur > 1 {
      var hi: int, lo: int := mem[cur], mem[cur + 1];
      var len := 256 * hi + lo;
      next := cur + 2;
      if next + len <= end {
        s := mem[next..next + len];
        ghost var w := mem[cur..end];
        assert ReadU16(w) == len;
        SliceOfSlice(mem, cur, end, 2, 2 + len);
        SliceOfSlice(mem, cur, end, 2 + len, end - cur);
        next := next + len;
        ok := true;
      }
    }
  }

  // ---------- the fixed header ----------

  function HeaderByte(kind: nat, dup: nat, qos: int, retain: nat): byte {
    kind % 16 * 16 + dup % 2 * 8 + qos % 4 * 2 + retain % 2
  }

  function HeaderType(b: byte): (t: nat)
    ensures t < 16
  {
    b / 16
  }

  function HeaderDup(b: byte): nat { b / 8 % 2 }
  function HeaderQos(b: byte): nat { b / 2 % 4 }
  function HeaderRetain(b: byte): nat { b % 2 }

  lemma HeaderRoundTrip(kind: nat, dup: nat, qos: int, retain: nat)
    ensures var b := HeaderByte(kind, dup, qos, retain);
            && HeaderType(b) == kind % 16 && HeaderDup(b) == dup % 2
            && HeaderQos(b) == qos % 4 && HeaderRetain(b) == retain % 2
  {
    Bits(kind % 16, dup % 2, qos % 4, retain % 2);
  }

  lemma Bits(k: nat, d: nat, q: nat, r: nat)
    requires k < 16 && d < 2 && q < 4 && r < 2
    ensures var b := k * 16 + d * 8 + q * 2 + r; b / 16 == k && b / 8 % 2 == d && b / 2 % 4 == q && b % 2 == r
  {
    var b := k * 16 + d * 8 + q * 2 + r;
    assert b / 8 == k * 2 + d && b / 2 == k * 8 + d * 4 + q;
  }

  // ---------- Remaining Length ----------

  function EncodeLen(n: nat): (r: bytes)
    ensures |r| >= 1
  {
    if n < 128 then [n] else [n % 128 + 128] + EncodeLen(n / 128)
  }

  lemma EncodeStep(n: nat)
    ensures EncodeLen(n) == if n / 128 > 0 then [n % 128 + 128] + EncodeLen(n / 128) else [n % 128]
  {
  }

  method Encode(buf: array<byte>, ptr: nat, length: nat) returns (rc: nat)
    requires ptr + |EncodeLen(length)| <= buf.Length
    modifies buf
    ensures rc == |EncodeLen(length)|
    ensures buf[..] == Write(old(buf[..]), ptr, EncodeLen(length))
  {
    hide Write, EncodeLen;
    rc := 0;
    var n, more := length, true;
    ghost var done: bytes := [];
    WriteNothing(buf[..], ptr);
    while more
      invariant rc == |done| && ptr + rc <= buf.Length
      invariant more ==> done + EncodeLen(n) == EncodeLen(length)
      invariant !more ==> done == EncodeLen(length)
      invariant buf[..] == Write(old(buf[..]), ptr, done)
      decreases more, n
    {
      var d := n % 128;
      var n' := n / 128;
      if n' > 0 {
        d := d + 128;
      }
      EncodeStep(n);
      assert n' > 0 ==> done + EncodeLen(n) == done + [d] + EncodeLen(n');
      WriteThen(old(buf[..]), ptr, done, [d]);
      var _ := WriteChar(buf, ptr + rc, d);
      done, rc := done + [d], rc + 1;
      n, more := n', n' > 0;
    }
  }

  lemma EncodeLenSize(n: nat)
    ensures |EncodeLen(n)| == 1 <==> n < 128
    ensures |EncodeLen(n)| == 2 <==> 128 <= n < 16384
    ensures |EncodeLen(n)| == 3 <==> 16384 <= n < 2097152
    ensures |EncodeLen(n)| == 4 <==> 2097152 <= n <= MAX_REMAINING
    ensures |EncodeLen(n)| <= 4 <==> n <= MAX_REMAINING
  {
    if n >= 128 {
      assert EncodeLen(n) == [n % 128 + 128] + EncodeLen(n / 128);
      var a := n / 128;
      if a >= 128 {
        assert EncodeLen(a) == [a % 128 + 128] + EncodeLen(a / 128);
        var b := a / 128;
        if b >= 128 {
          assert EncodeLen(b) == [b % 128 + 128] + EncodeLen(b / 128);
          var c := b / 128;
          assert c < 128 ==> EncodeLen(c) == [c];
          assert c >= 128 ==> EncodeLen(c) == [c % 128 + 128] + EncodeLen(c / 128);
        }
      }
    }
  }

  // len is the count returned, used the number of bytes taken from the source: they differ when
  // the source ends early or four bytes all ask for another one.
  datatype Decoded = Decoded(len: nat, value: nat, used: nat)

  // What one byte of the field contributes.
  function Digit(c: byte, multiplier: nat): (v: nat)
  {
    var low: nat := c % 128;
    low * multiplier
  }

  function DecodeFrom(s: bytes, len: nat, multiplier: nat, value: nat): Decoded
    decreases 4 - len
  {
    if len >= 4 || s == [] then Decoded(len + 1, value, len)
    else
      var v := value + Digit(s[0], multiplier);
      if s[0] >= 128 then DecodeFrom(s[1..], len + 1, multiplier * 128, v)
      else Decoded(len + 1, v, len + 1)
  }

  lemma DecodeStep(rest: bytes, len: nat, multiplier: nat, value: nat)
    ensures len >= 4 || rest == [] ==> DecodeFrom(rest, len, multiplier, value) == Decoded(len + 1, value, len)
    ensures len < 4 && rest != [] ==>
              DecodeFrom(rest, len, multiplier, value)
              == (var v := value + Digit(rest[0], multiplier);
                  if rest[0] >= 128 then DecodeFrom(rest[1..], len + 1, multiplier * 128, v)
                  else Decoded(len + 1, v, len + 1))
  {
  }

  function DecodeLen(s: bytes): Decoded { DecodeFrom(s, 0, 1, 0) }

  // The field at the front of s is complete and has at most four bytes.
  predicate GoodLength(s: bytes) { DecodeLen(s).len == DecodeLen(s).used }

  // s does not end inside the field: it is good, or four bytes all ask for another one.
  predicate FieldEnds(s: bytes) { GoodLength(s) || DecodeLen(s).used == 4 }

  lemma Digits(high: nat, low: nat, multiplier: nat)
    ensures low * multiplier + high * (multiplier * 128) == (low + high * 128) * multiplier
  {
  }

  lemma {:induction false} DecodeEncodeFrom(n: nat, rest: bytes, len: nat, multiplier: nat, value: nat)
    requires len + |EncodeLen(n)| <= 4
    ensures DecodeFrom(EncodeLen(n) + rest, len, multiplier, value)
         == Decoded(len + |EncodeLen(n)|, value + n * multiplier, len + |EncodeLen(n)|)
  {
    var s := EncodeLen(n) + rest;
    if n >= 128 {
      assert s[0] == n % 128 + 128 && s[1..] == EncodeLen(n / 128) + rest;
      DecodeEncodeFrom(n / 128, rest, len + 1, multiplier * 128, value + Digit(n % 128 + 128, multiplier));
      Digits(n / 128, n % 128, multiplier);
    }
  }

  // Decoding inverts encoding in one to four bytes, whatever follows.
  lemma RemainingLengthRoundTrip(n: nat, rest: bytes)
    requires n <= MAX_REMAINING
    ensures DecodeLen(EncodeLen(n) + rest) == Decoded(|EncodeLen(n)|, n, |EncodeLen(n)|)
    ensures 1 <= |EncodeLen(n)| <= 4
  {
    EncodeLenSize(n);
    DecodeEncodeFrom(n, rest, 0, 1, 0);
  }

  lemma {:induction false} DecodeFromBound(s: bytes, len: nat, multiplier: nat, value: nat)
    requires len <= 4
    requires multiplier == (if len == 0 then 1 else if len == 1 then 128 else if len == 2 then 16384
                            else if len == 3 then 2097152 else 268435456)
    requires value < multiplier
    ensures var d := DecodeFrom(s, len, multiplier, value);
            d.value <= MAX_REMAINING && d.used <= 4 && d.used - len <= |s| && d.used <= d.len <= d.used + 1
    decreases 4 - len
  {
    if len < 4 && s != [] && s[0] >= 128 {
      DecodeFromBound(s[1..], len + 1, multiplier * 128, value + Digit(s[0], multiplier));
    }
  }

  lemma DecodeLenBound(s: bytes)
    ensures var d := DecodeLen(s);
            d.value <= MAX_REMAINING && d.used <= 4 && d.used <= |s| && d.used <= d.len <= d.used + 1
  {
    DecodeFromBound(s, 0, 1, 0);
  }

  // MQTTPacket_len
  function PacketLen(remLen: nat): nat {
    var n := remLen + 1;
    if n < 128 then n + 1
    else if n < 16384 then n + 2
    else if n < 2097151 then n + 3
    else n + 4
  }

  lemma PacketLenGrows(n: nat)
    ensures n + 2 <= PacketLen(n) <= n + 5
  {
  }

  // The predictor never falls short within the protocol's limit, and is one too large at exactly
  // four sizes; beyond the limit it does fall short.
  lemma PacketLenExact(n: nat)
    ensures n <= MAX_REMAINING ==>
              PacketLen(n) == 1 + |EncodeLen(n)| + n + (if n in {127, 16383, 2097150, 2097151} then 1 else 0)
    ensures PacketLen(n) >= 1 + |EncodeLen(n)| + n <==> n <= MAX_REMAINING
  {
    EncodeLenSize(n);
  }

  // MQTTPacket_decodeBuf: the do-while loop over a buffer. A field of more than four bytes counts
  // for five, with the value of its first four.
  method DecodeBuf(mem: bytes, at: nat) returns (len: nat, value: nat)
    requires at <= |mem| && FieldEnds(mem[at..])
    ensures len == DecodeLen(mem[at..]).len && value == DecodeLen(mem[at..]).value
  {
    hide Digit;
    len, value := 0, 0;
    var multiplier: nat, more := 1, true;
    while more
      invariant more ==> at + len <= |mem| && len <= 4
      invariant more ==> DecodeLen(mem[at..]) == DecodeFrom(mem[at + len..], len, multiplier, value)
      invariant !more ==> len == DecodeLen(mem[at..]).len && value == DecodeLen(mem[at..]).value
      decreases more, 4 - len
    {
      ghost var s := mem[at + len..];
      len := len + 1;
      if len > 4 {
        break;
      }
      var c := mem[at + len - 1];
      value := value + Digit(c, multiplier);
      multiplier := multiplier * 128;
      assert s[1..] == mem[at + len..];
      more := c >= 128;
    }
  }

  // ---------- packets ----------

  // A whole control packet with its minimal length field.
  function Packet(header: byte, body: bytes): bytes { [header] + EncodeLen(|body|) + body }

  // mem starts with a complete packet and goes on for at least slack bytes.
  predicate Framed(mem: bytes, slack: nat) {
    && |mem| >= 1 && FieldEnds(mem[1..])
    && 1 + DecodeLen(mem[1..]).len + DecodeLen(mem[1..]).value + slack <= |mem|
  }

  function BodyStart(mem: bytes): nat
    requires |mem| >= 1
  {
    1 + DecodeLen(mem[1..]).len
  }

  function BodyEnd(mem: bytes): nat
    requires |mem| >= 1
  {
    BodyStart(mem) + DecodeLen(mem[1..]).value
  }

  function Body(mem: bytes): bytes
    requires Framed(mem, 0)
  {
    mem[BodyStart(mem)..BodyEnd(mem)]
  }

  lemma PacketFramed(header: byte, body: bytes, rest: bytes)
    requires |body| <= MAX_REMAINING
    ensures var mem := Packet(header, body) + rest;
            && Framed(mem, |rest|) && GoodLength(mem[1..]) && mem[0] == header && Body(mem) == body
            && BodyStart(mem) == 1 + |EncodeLen(|body|)| && BodyEnd(mem) == |Packet(header, body)|
            && mem[BodyEnd(mem)..] == rest
  {
    hide DecodeLen, EncodeLen;
    var e := EncodeLen(|body|);
    var mem := Packet(header, body) + rest;
    RemainingLengthRoundTrip(|body|, body + rest);
    assert mem[1..] == e + (body + rest);
    assert mem[1 + |e|..1 + |e| + |body|] == body;
  }

  method WriteHeader(buf: array<byte>, header: byte, remLen: nat) returns (ptr: nat)
    requires 1 + |EncodeLen(remLen)| <= buf.Length
    modifies buf
    ensures ptr == 1 + |EncodeLen(remLen)|
    ensures buf[..] == Write(old(buf[..]), 0, [header] + EncodeLen(remLen))
  {
    ptr := WriteChar(buf, 0, header);
    var n := Encode(buf, ptr, remLen);
    WriteThen(old(buf[..]), 0, [header], EncodeLen(remLen));
    ptr := ptr + n;
  }
}
