/**
The two packet readers of MQTTPacket.c: MQTTPacket_read, which blocks, and MQTTPacket_readnb, which
is called again until a packet is complete.
*/
module PacketReader {
  import opened Wire

  const READ_ERROR := -1

  // ---------- what a reader must deliver ----------

  // filled is the front of the caller's buffer, consumed the number of bytes taken off the stream.
  datatype ReadOut = ReadOut(rc: int, filled: bytes, consumed: nat)

  // The stream starts with a packet of a real type, its length field complete (or already four
  // bytes long without an end) and its body present.
  predicate Complete(s: bytes) {
    && |s| >= 1 && HeaderType(s[0]) != 0
    && var d := DecodeLen(s[1..]);
       FieldEnds(s[1..]) && 1 + d.used + d.value <= |s|
  }

  // The original length is put back into the buffer in its shortest form.
  function Front(s: bytes): bytes
    requires |s| >= 1
  {
    [s[0]] + EncodeLen(DecodeLen(s[1..]).value)
  }

  // A stream that ends early is an error, after all of it was taken; a length field that ends
  // early counts as it stands.
  function BlockingOut(s: bytes, buflen: nat): ReadOut {
    if s == [] then ReadOut(READ_ERROR, [], 0)
    else
      DecodeLenBound(s[1..]);
      var d := DecodeLen(s[1..]);
      if d.value + |Front(s)| > buflen then ReadOut(READ_ERROR, Front(s), 1 + d.used)
      else if |s| < 1 + d.used + d.value then ReadOut(READ_ERROR, Front(s) + s[1 + d.used..], |s|)
      else ReadOut(HeaderType(s[0]), Front(s) + s[1 + d.used..1 + d.used + d.value], 1 + d.used + d.value)
  }

  // The resumable reader stops at a length field of more than four bytes, and waits (0) where the
  // stream ends early.
  function ResumableOut(s: bytes, buflen: nat): ReadOut {
    if s == [] then ReadOut(0, [], 0)
    else
      DecodeLenBound(s[1..]);
      var d := DecodeLen(s[1..]);
      if !GoodLength(s[1..]) then ReadOut(if d.used == 4 then READ_ERROR else 0, [s[0]], 1 + d.used)
      else if d.value + |Front(s)| <= buflen && |s| < 1 + d.used + d.value then
        ReadOut(0, Front(s) + s[1 + d.used..], |s|)
      else BlockingOut(s, buflen)
  }

  // The two agree on type and consumption exactly when the field has at most four bytes or the
  // packet does not fit.
  lemma ReadersAgree(s: bytes, buflen: nat)
    requires Complete(s)
    ensures (ResumableOut(s, buflen).rc == BlockingOut(s, buflen).rc
             && ResumableOut(s, buflen).consumed == BlockingOut(s, buflen).consumed)
       <==> GoodLength(s[1..]) || DecodeLen(s[1..]).value + |Front(s)| > buflen
  {
    DecodeLenBound(s[1..]);
  }

  // Four continuation bytes of value 0: the blocking reader returns an empty CONNACK.
  lemma ReadersDiffer()
    ensures Complete([32, 128, 128, 128, 128]) && !GoodLength([128, 128, 128, 128])
    ensures BlockingOut([32, 128, 128, 128, 128], 5).rc == 2 && ResumableOut([32, 128, 128, 128, 128], 5).rc == -1
  {
    var s: bytes := [32, 128, 128, 128, 128];
    assert s[1..] == [128, 128, 128, 128];
    assert DecodeFrom([128], 3, 2097152, 0) == DecodeFrom([], 4, 268435456, 0);
    assert DecodeFrom([128, 128], 2, 16384, 0) == DecodeFrom([128], 3, 2097152, 0);
    assert DecodeFrom([128, 128, 128], 1, 128, 0) == DecodeFrom([128, 128], 2, 16384, 0);
    assert DecodeLen(s[1..]) == DecodeFrom([128, 128, 128], 1, 128, 0);
  }

  // A packet in its shortest form is delivered unchanged.
  lemma ReadsPacket(header: byte, body: bytes, rest: bytes, buflen: nat)
    requires HeaderType(header) != 0 && |body| <= MAX_REMAINING && |Packet(header, body)| <= buflen
    ensures var s := Packet(header, body) + rest;
            && Complete(s) && GoodLength(s[1..])
            && BlockingOut(s, buflen) == ReadOut(HeaderType(header), Packet(header, body), |Packet(header, body)|)
  {
    hide DecodeLen, EncodeLen, HeaderType;
    PacketFramed(header, body, rest);
  }

  // ---------- the stream ----------

  // Bytes to come and a schedule of read results: a negative entry is an error, zero "call again",
  // k > 0 at most k bytes. After the schedule every read is served in full.
  class Source {
    const stream: bytes
    var pos: nat
    var sched: seq<int>

    ghost predicate Valid() reads this { pos <= |stream| }

    // No error lies ahead.
    ghost predicate Smooth() reads this { forall i :: 0 <= i < |sched| ==> sched[i] >= 0 }

    constructor (bs: bytes, schedule: seq<int>)
      ensures stream == bs && pos == 0 && sched == schedule && Valid()
    {
      stream, pos, sched := bs, 0, schedule;
    }

    // The blocking getfn: everything asked for, as far as the stream goes.
    method ReadFully(n: nat) returns (got: bytes)
      requires Valid()
      modifies this
      ensures Valid() && sched == old(sched) && pos == old(pos) + |got| && got == stream[old(pos)..pos]
      ensures |got| == if n <= |stream| - old(pos) then n else |stream| - old(pos)
    {
      var k := if n <= |stream| - pos then n else |stream| - pos;
      got := stream[pos..pos + k];
      pos := pos + k;
    }

    // The non-blocking getfn.
    method ReadSome(n: nat) returns (frc: int, got: bytes)
      requires Valid() && n > 0
      modifies this
      ensures Valid() && -1 <= frc <= n && |got| == (if frc < 0 then 0 else frc)
      ensures pos == old(pos) + |got| && got == stream[old(pos)..pos]
      ensures sched == if old(sched) == [] then [] else old(sched)[1..]
      ensures old(Smooth()) ==> Smooth() && frc >= 0
      ensures old(sched) == [] ==> frc == if n <= |stream| - old(pos) then n else |stream| - old(pos)
    {
      var r := n;
      if sched != [] {
        r, sched := sched[0], sched[1..];
      }
      if r < 0 {
        return READ_ERROR, [];
      }
      var k := if r <= n then r else n;
      k := if k <= |stream| - pos then k else |stream| - pos;
      got := stream[pos..pos + k];
      assert got == stream[pos..pos + |got|];
      pos := pos + k;
      frc := k;
    }
  }

  // ---------- MQTTPacket_read ----------

  // MQTTPacket_decode on the stream; its result is not looked at, only the value.
  method DecodeStream(src: Source) returns (value: nat)
    requires src.Valid()
    modifies src
    ensures src.Valid() && src.sched == old(src.sched)
    ensures var d := DecodeLen(old(src.stream[src.pos..])); value == d.value && src.pos == old(src.pos) + d.used
  {
    hide Digit;
    ghost var s0, p0 := src.stream[src.pos..], src.pos;
    value := 0;
    var len: nat, multiplier: nat, more := 0, 1, true;
    while more
      invariant src.Valid() && src.sched == old(src.sched) && len <= 4
      invariant more ==>
                  src.pos == p0 + len && DecodeLen(s0) == DecodeFrom(src.stream[src.pos..], len, multiplier, value)
      invariant !more ==> value == DecodeLen(s0).value && src.pos == p0 + DecodeLen(s0).used
      decreases more, 4 - len
    {
      if len >= 4 {
        more := false;
      } else {
        ghost var s := src.stream[src.pos..];
        var c := src.ReadFully(1);
        if c == [] {
          more := false;
        } else {
          assert s[0] == c[0] && s[1..] == src.stream[src.pos..];
          len := len + 1;
          value := value + Digit(c[0], multiplier);
          multiplier := multiplier * 128;
          more := c[0] >= 128;
        }
      }
    }
  }

  // Header byte and length field, the length put back into the buffer in its shortest form.
  method ReadStart(buf: array<byte>, src: Source, header: byte, ghost s: bytes) returns (remLen: nat, len: nat)
    requires src.Valid() && 5 <= buf.Length && s != [] && header == s[0] && src.stream[src.pos..] == s[1..]
    modifies buf, src
    ensures src.Valid() && src.sched == old(src.sched) && src.pos == old(src.pos) + DecodeLen(s[1..]).used
    ensures remLen == DecodeLen(s[1..]).value && len == |Front(s)| <= 5 && buf[..] == Write(old(buf[..]), 0, Front(s))
  {
    hide DecodeLen, EncodeLen, Write;
    ghost var b0 := buf[..];
    len := WriteChar(buf, 0, header);
    remLen := DecodeStream(src);
    DecodeLenBound(s[1..]);
    EncodeLenSize(remLen);
    var n := Encode(buf, len, remLen);
    len := len + n;
    WriteThen(b0, 0, [s[0]], EncodeLen(remLen));
  }

  method ReadBlocking(buf: array<byte>, buflen: nat, src: Source) returns (rc: int)
    requires src.Valid() && 5 <= buflen <= buf.Length
    modifies buf, src
    ensures src.Valid()
    ensures var o := BlockingOut(old(src.stream[src.pos..]), buflen);
            && rc == o.rc && src.pos == old(src.pos) + o.consumed
            && |o.filled| <= buf.Length && buf[..|o.filled|] == o.filled
  {
    hide DecodeLen, EncodeLen, HeaderType, Write, BlockingOut, Front;
    ghost var s, p0, b0 := src.stream[src.pos..], src.pos, buf[..];
    BlockingCases(s, buflen);
    var first := src.ReadFully(1);
    if |first| != 1 {
      return READ_ERROR;
    }
    assert first == [s[0]] && src.stream[src.pos..] == s[1..];
    var remLen, len := ReadStart(buf, src, first[0], s);
    WrittenPrefix(b0, Front(s));
    if remLen + len > buflen {
      return READ_ERROR;
    }
    rc := HeaderType(first[0]);
    if remLen > 0 {
      var got := ReadBodyFully(buf, len, remLen, src, b0, Front(s), s, p0);
      if got != remLen {
        return READ_ERROR;
      }
    }
  }

  // The body, as far as the stream goes, behind the front that is already in the buffer.
  method ReadBodyFully(buf: array<byte>, len: nat, n: nat, src: Source,
                       ghost b0: bytes, ghost front: bytes, ghost s: bytes, ghost p0: nat)
    returns (got: nat)
    requires src.Valid() && p0 <= src.pos && s == src.stream[p0..] && |front| == len && len + n <= buf.Length == |b0|
    requires buf[..] == Write(b0, 0, front)
    modifies buf, src
    ensures src.Valid() && src.pos == old(src.pos) + got
    ensures got == if n <= |s| - (old(src.pos) - p0) then n else |s| - (old(src.pos) - p0)
    ensures var at := old(src.pos) - p0;
            buf[..len + got] == front + s[at..at + got] && (got < n ==> s[at..at + got] == s[at..])
  {
    hide Write;
    ghost var at := src.pos - p0;
    var body := src.ReadFully(n);
    got := |body|;
    SliceOfSlice(src.stream, p0, |src.stream|, at, at + got);
    var _ := WriteBytes(buf, len, body);
    WriteThen(b0, 0, front, body);
    WrittenPrefix(b0, front + body);
    assert buf[..len + got] == buf[..][..|front + body|];
    assert s[at..at + got] == body;
    assert got < n ==> at + got == |s|;
  }

  // What the blocking reader is to deliver, case by case.
  lemma BlockingCases(s: bytes, buflen: nat)
    ensures s == [] ==> BlockingOut(s, buflen) == ReadOut(READ_ERROR, [], 0)
    ensures s != [] ==>
              var d := DecodeLen(s[1..]);
              && 1 + d.used <= |s|
              && (d.value + |Front(s)| > buflen ==> BlockingOut(s, buflen) == ReadOut(READ_ERROR, Front(s), 1 + d.used))
              && (d.value + |Front(s)| <= buflen && |s| < 1 + d.used + d.value ==>
                    BlockingOut(s, buflen) == ReadOut(READ_ERROR, Front(s) + s[1 + d.used..], |s|))
              && (d.value + |Front(s)| <= buflen && 1 + d.used + d.value <= |s| ==>
                    BlockingOut(s, buflen)
                    == ReadOut(HeaderType(s[0]), Front(s) + s[1 + d.used..1 + d.used + d.value], 1 + d.used + d.value))
              && (d.value == 0 ==> Front(s) + s[1 + d.used..1 + d.used + d.value] == Front(s))
  {
    hide DecodeLen, EncodeLen, HeaderType;
    if s != [] {
      DecodeLenBound(s[1..]);
    }
  }

  // ---------- MQTTPacket_readnb ----------

  // Of the packet at the front of s, at bytes have been taken; the buffer b holds its front and the
  // body so far, len bytes in all, and rem bytes are missing.
  ghost predicate BodyState(s: bytes, at: nat, b: bytes, buflen: nat, len: nat, rem: nat) {
    && s != []
    && var d := DecodeLen(s[1..]);
    && GoodLength(s[1..]) && d.value + |Front(s)| <= buflen
    && |Front(s)| <= len && len + rem == |Front(s)| + d.value && len <= |b|
    && at == 1 + d.used + (len - |Front(s)|) <= |s|
    && b[..len] == Front(s) + s[1 + d.used..at]
  }

  lemma BodyStep(s: bytes, at: nat, b: bytes, buflen: nat, len: nat, rem: nat, got: bytes)
    requires BodyState(s, at, b, buflen, len, rem) && |got| <= rem && at + |got| <= |s| && got == s[at..at + |got|]
    requires buflen <= |b|
    ensures len + |got| <= |b| && BodyState(s, at + |got|, Write(b, len, got), buflen, len + |got|, rem - |got|)
  {
    hide DecodeLen, Front, Write;
    BodyGrows(b, s, Front(s), 1 + DecodeLen(s[1..]).used, len, got);
  }

  class Transport {
    const src: Source
    var multiplier: nat
    var rem_len: nat
    var len: nat
    var state: nat

    constructor (source: Source)
      ensures src == source && state == 0
    {
      src, multiplier, rem_len, len, state := source, 0, 0, 0, 0;
    }

    // Where the reader stands between two calls, for a packet that began at position start and a
    // buffer that now holds b.
    ghost predicate InProgress(start: nat, b: bytes, buflen: nat)
      reads this, src
    {
      && src.Valid() && start <= |src.stream| && 5 <= buflen <= |b|
      && match state
         case 0 => src.pos == start
         case 1 => InLength(start, b)
         case 2 => rem_len > 0 && InBody(start, b, buflen)
         case _ => false
    }

    ghost predicate InLength(start: nat, b: bytes)
      requires start <= |src.stream| && src.Valid()
      reads this, src
    {
      var s := src.stream[start..];
      && len <= 3 && src.pos == start + 1 + len && |b| > 0 && b[0] == s[0]
      && (len > 0 ==> DecodeLen(s[1..]) == DecodeFrom(src.stream[src.pos..], len, multiplier, rem_len))
    }

    ghost predicate InBody(start: nat, b: bytes, buflen: nat)
      requires start <= |src.stream| && src.Valid()
      reads this, src
    {
      start <= src.pos && BodyState(src.stream[start..], src.pos - start, b, buflen, len, rem_len)
    }

    // MQTTPacket_decodenb: 0 for "call again", otherwise an error or the size of the field.
    method DecodeNb(ghost start: nat, ghost b: bytes) returns (rc: int, ghost errored: bool)
      requires src.Valid() && start <= |src.stream| && InLength(start, b)
      modifies this`multiplier, this`rem_len, this`len, src
      ensures src.Valid() && |src.sched| <= old(|src.sched|)
      ensures old(src.Smooth()) ==> src.Smooth() && !errored
      ensures errored ==> rc == READ_ERROR
      ensures rc == 0 ==> InLength(start, b) && (|src.sched| < old(|src.sched|) || src.pos == |src.stream|)
      ensures var s := src.stream[start..]; var d := DecodeLen(s[1..]);
              && (rc == READ_ERROR && !errored ==> !GoodLength(s[1..]) && d.used == 4 && src.pos == start + 5)
              && (rc != 0 && rc != READ_ERROR ==>
                    GoodLength(s[1..]) && rem_len == d.value && src.pos == start + 1 + d.used)
      ensures rc >= -1
    {
      hide Digit, HeaderType, DecodeFrom;
      ghost var s := src.stream[start..];
      errored := false;
      if len == 0 {
        multiplier, rem_len := 1, 0;
        assert s[1..] == src.stream[src.pos..];
      }
      hide DecodeLen;
      while true
        invariant old(src.Smooth()) ==> src.Smooth()
        invariant src.Valid() && |src.sched| <= old(|src.sched|) && len <= 4 && src.pos == start + 1 + len
        invariant DecodeLen(s[1..]) == DecodeFrom(src.stream[src.pos..], len, multiplier, rem_len)
        decreases 4 - len
      {
        ghost var rest := src.stream[src.pos..];
        DecodeStep(rest, len, multiplier, rem_len);
        if len >= 4 {
          return READ_ERROR, false;
        }
        var frc, c := src.ReadSome(1);
        if frc == -1 {
          return READ_ERROR, true;
        }
        if frc == 0 {
          return 0, false;
        }
        assert rest[0] == c[0] && rest[1..] == src.stream[src.pos..];
        len := len + 1;
        rem_len := rem_len + Digit(c[0], multiplier);
        multiplier := multiplier * 128;
        if c[0] < 128 {
          return len, false;
        }
      }
    }

    // What a finished read leaves behind.
    ghost predicate Delivered(start: nat, b: bytes, buflen: nat, rc: int)
      reads this, src
    {
      && start <= |src.stream| && state == 0 && src.Valid()
      && var o := ResumableOut(src.stream[start..], buflen);
         rc == o.rc && src.pos == start + o.consumed && |o.filled| <= |b| && b[..|o.filled|] == o.filled
    }

    // One read of body bytes into the buffer.
    method FetchBody(buf: array<byte>, buflen: nat, ghost start: nat) returns (frc: int)
      requires src.Valid() && start <= |src.stream| && buflen <= buf.Length
      requires rem_len > 0 && InBody(start, buf[..], buflen)
      modifies this`rem_len, this`len, src, buf
      ensures src.Valid() && |src.sched| <= old(|src.sched|) && frc >= READ_ERROR
      ensures old(src.Smooth()) ==> src.Smooth() && frc >= 0
      ensures InBody(start, buf[..], buflen)
      ensures frc >= 0 && rem_len > 0 ==> |src.sched| < old(|src.sched|) || src.pos == |src.stream|
      ensures frc == 0 ==> rem_len > 0
    {
      hide BodyState, Write;
      ghost var p0 := src.pos;
      var got;
      frc, got := src.ReadSome(rem_len);
      SliceOfSlice(src.stream, start, |src.stream|, p0 - start, src.pos - start);
      if frc > 0 {
        BodyStep(src.stream[start..], p0 - start, buf[..], buflen, len, rem_len, got);
        var _ := WriteBytes(buf, len, got);
        rem_len := rem_len - frc;
        len := len + frc;
      }
    }

    // Case 2: the body, as much of it as this call gets.
    method ReadBody(buf: array<byte>, buflen: nat, ghost start: nat) returns (rc: int, ghost errored: bool)
      requires src.Valid() && start <= |src.stream| && buflen <= buf.Length
      requires state == 2 && InBody(start, buf[..], buflen)
      modifies this, src, buf
      ensures src.Valid() && |src.sched| <= old(|src.sched|)
      ensures old(src.Smooth()) ==> src.Smooth() && !errored
      ensures errored ==> rc == READ_ERROR && state == 0
      ensures !errored ==>
                || Delivered(start, buf[..], buflen, rc)
                || (rc == 0 && state == 2 && rem_len > 0 && InBody(start, buf[..], buflen)
                    && (|src.sched| < old(|src.sched|) || src.pos == |src.stream|))
    {
      hide DecodeLen, EncodeLen, HeaderType;
      ghost var s := src.stream[start..];
      errored := false;
      if rem_len > 0 {
        var frc := FetchBody(buf, buflen, start);
        if frc == -1 {
          state := 0;
          return READ_ERROR, true;
        }
        if frc == 0 || rem_len > 0 {
          return 0, false;
        }
      }
      HeadOf(buf[..], Front(s), s, len);
      rc := HeaderType(buf[0]);
      state := 0;
    }

    // Case 1: the rest of the length field, put back into the buffer in its shortest form.
    method ReadLength(buf: array<byte>, buflen: nat, ghost start: nat) returns (rc: int, ghost errored: bool)
      requires src.Valid() && start <= |src.stream| && 5 <= buflen <= buf.Length
      requires state == 1 && InLength(start, buf[..])
      modifies this, src, buf
      ensures src.Valid() && |src.sched| <= old(|src.sched|)
      ensures old(src.Smooth()) ==> src.Smooth() && !errored
      ensures errored ==> rc == READ_ERROR && state == 0
      ensures !errored && rc == 0 ==>
                state == 1 && InLength(start, buf[..]) && (|src.sched| < old(|src.sched|) || src.pos == |src.stream|)
      ensures !errored && rc == READ_ERROR ==> Delivered(start, buf[..], buflen, rc)
      ensures rc != 0 && rc != READ_ERROR ==> state == 2 && InBody(start, buf[..], buflen)
    {
      hide DecodeLen, EncodeLen, HeaderType, Write, DecodeFrom;
      ghost var s, b0 := src.stream[start..], buf[..];
      var frc;
      frc, errored := DecodeNb(start, buf[..]);
      if frc == READ_ERROR {
        state := 0;
        assert buf[..1] == [s[0]];
        return READ_ERROR, errored;
      }
      if frc == 0 {
        return 0, false;
      }
      DecodeLenBound(s[1..]);
      EncodeLenSize(rem_len);
      var n := Encode(buf, 1, rem_len);
      FrontWritten(b0, s[0], EncodeLen(rem_len));
      len := 1 + n;
      assert buf[..len] == Front(s);
      if rem_len + len > buflen {
        state := 0;
        return READ_ERROR, false;
      }
      state := 2;
      assert Front(s) + s[1 + DecodeLen(s[1..]).used..1 + DecodeLen(s[1..]).used] == Front(s);
      rc := 1;
    }

    // One call: an error, the packet, or a place to go on from. 0 means "call again" unless the
    // packet is of type 0, which is not a type of MQTT.
    method ReadNb(buf: array<byte>, buflen: nat, ghost start: nat) returns (rc: int, ghost errored: bool)
      requires InProgress(start, buf[..], buflen) && buflen <= buf.Length
      modifies this, src, buf
      ensures old(src.Smooth()) ==> src.Smooth() && !errored
      ensures errored ==> rc == READ_ERROR && state == 0
      ensures !errored ==>
                || Delivered(start, buf[..], buflen, rc)
                || (rc == 0 && InProgress(start, buf[..], buflen)
                    && (|src.sched| < old(|src.sched|) || src.pos == |src.stream|))
    {
      hide InBody, DecodeFrom, DecodeLen, ResumableOut, HeaderType;
      errored := false;
      if state == 0 {
        ghost var s := src.stream[start..];
        var frc, c := src.ReadSome(1);
        if frc == -1 {
          return READ_ERROR, true;
        }
        if frc == 0 {
          return 0, false;
        }
        var _ := WriteChar(buf, 0, c[0]);
        len := 0;
        state := 1;
        assert c[0] == s[0];
      }
      if state == 1 {
        var frc;
        frc, errored := ReadLength(buf, buflen, start);
        if frc == READ_ERROR || frc == 0 {
          return frc, errored;
        }
      }
      rc, errored := ReadBody(buf, buflen, start);
    }
  }

  lemma FrontWritten(b: bytes, h: byte, e: bytes)
    requires 1 + |e| <= |b| && b[0] == h
    ensures Write(b, 1, e)[..1 + |e|] == [h] + e
  {
  }

  // Calling again until something other than 0 comes back.
  method ReadRepeatedly(t: Transport, buf: array<byte>, buflen: nat) returns (rc: int, ghost errored: bool)
    requires t.InProgress(t.src.pos, buf[..], buflen) && t.state == 0 && buflen <= buf.Length
    requires Complete(t.src.stream[t.src.pos..])
    modifies t, t.src, buf
    ensures old(t.src.Smooth()) ==> !errored
    ensures errored ==> rc == READ_ERROR
    ensures !errored ==> t.Delivered(old(t.src.pos), buf[..], buflen, rc)
  {
    ghost var start := t.src.pos;
    rc, errored := t.ReadNb(buf, buflen, start);
    StillComing(t, start, buf[..], buflen, rc);
    while rc == 0
      invariant old(t.src.Smooth()) ==> t.src.Smooth() && !errored
      invariant errored ==> rc == READ_ERROR
      invariant !errored && rc == 0 ==> t.InProgress(start, buf[..], buflen)
      invariant !errored && rc != 0 ==> t.Delivered(start, buf[..], buflen, rc)
      decreases rc == 0, |t.src.sched|
    {
      rc, errored := t.ReadNb(buf, buflen, start);
      StillComing(t, start, buf[..], buflen, rc);
    }
  }

  // For every stream, every schedule of "call again" results and partial reads, and every buffer
  // size the two readers deliver the same type, buffer contents and consumption, provided the
  // length field has at most four bytes.
  method SamePacket(stream: bytes, sched: seq<int>, buflen: nat) returns (blocking: ReadOut, resumable: ReadOut)
    requires Complete(stream) && GoodLength(stream[1..]) && 5 <= buflen
    requires forall i :: 0 <= i < |sched| ==> sched[i] >= 0
    ensures blocking == resumable == BlockingOut(stream, buflen)
  {
    hide BlockingOut, DecodeLen;
    assert stream[0..] == stream;
    var buf := new byte[buflen];
    var src := new Source(stream, []);
    var rc := ReadBlocking(buf, buflen, src);
    var n := |BlockingOut(stream, buflen).filled|;
    blocking := ReadOut(rc, buf[..n], src.pos);
    var buf' := new byte[buflen];
    var src' := new Source(stream, sched);
    var t := new Transport(src');
    ghost var errored;
    rc, errored := ReadRepeatedly(t, buf', buflen);
    resumable := ReadOut(rc, buf'[..n], src'.pos);
  }

  lemma BodyGrows(b: bytes, s: bytes, f: bytes, bodyStart: nat, len: nat, got: bytes)
    requires |f| <= len && len + |got| <= |b| && bodyStart + (len - |f|) + |got| <= |s|
    requires b[..len] == f + s[bodyStart..bodyStart + (len - |f|)]
    requires got == s[bodyStart + (len - |f|)..bodyStart + (len - |f|) + |got|]
    ensures Write(b, len, got)[..len + |got|] == f + s[bodyStart..bodyStart + (len + |got| - |f|)]
  {
    var k := bodyStart + (len - |f|);
    assert Write(b, len, got)[..len + |got|] == b[..len] + got;
    assert s[bodyStart..k] + got == s[bodyStart..k + |got|];
  }

  lemma HeadOf(b: bytes, f: bytes, s: bytes, len: nat)
    requires 1 <= |f| <= len <= |b| && |s| >= 1 && f[0] == s[0] && b[..len][..|f|] == f
    ensures b[0] == s[0]
  {
    assert b[..len][..|f|][0] == b[0];
  }

  // A complete stream has more to come while its packet is being read, and is not delivered with
  // "call again".
  lemma StillComing(t: Transport, start: nat, b: bytes, buflen: nat, rc: int)
    requires start <= |t.src.stream| && Complete(t.src.stream[start..])
    ensures t.InProgress(start, b, buflen) ==> t.src.pos < |t.src.stream|
    ensures t.Delivered(start, b, buflen, rc) ==> rc != 0
  {
    hide EncodeLen, HeaderType;
    DecodeLenBound(t.src.stream[start..][1..]);
  }
}
