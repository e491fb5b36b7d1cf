/**
Messages for a sleeping client (section 6.14 of MQTT-SN Version 1.2): the bounded queue of the gateway
client (PacketQue in MQTTSNGWClient.h), the status changes of MQTTSNGWClient.cpp, and the handlers
that fill and drain the queue (MQTTGWPublishHandler.cpp, MQTTSNGWConnectionHandler.cpp).
*/
module SleepBuffer {
  import opened Basics
  import opened LinkedLists

  const MAX_SAVED_PUBLISH := 20

  datatype Status = Disconnected | TryConnecting | Connecting | Active | Asleep | Awake | Lost

  // A PUBLISH from the broker.
  datatype Packet = Packet(topic: string, payload: string, qos: nat, msgId: nat)

  datatype BrokerAck = Puback(id: nat) | Pubrec(id: nat)

  // What becomes of a message for a client that is not asleep: its topic has an identifier or can
  // get one, no topic of the client matches it, or no identifier could be made.
  datatype Route = Forward | Cancel | NoTopicId

  // MQTT-SN packets from the client, as far as the status looks at them; a CONNECT may not parse.
  datatype ClientPacket = ConnectSn(valid: bool) | PingreqSn | DisconnectSn(duration: nat) | PingrespSn | OtherSn

  function AckOf(p: Packet): seq<BrokerAck> {
    if p.qos == 1 then [Puback(p.msgId)] else if p.qos == 2 then [Pubrec(p.msgId)] else []
  }

  // Client::updateStatus
  function NextStatus(s: Status, p: ClientPacket): Status {
    if s == Active then
      match p
      case DisconnectSn(d) => if d > 0 then Asleep else Disconnected
      case _ => s
    else if s == Awake || s == Asleep then
      match p
      case ConnectSn(_) => Active
      case DisconnectSn(_) => Disconnected
      case PingreqSn => Awake
      case PingrespSn => Asleep
      case OtherSn => s
    else s
  }

  class Sleeper {
    const que: Que<Packet>
    const adapter: bool
    var status: Status
    var holdPing: bool
    var acks: seq<BrokerAck>          // acknowledgements sent to the broker
    var forwarded: seq<Packet>        // messages handed on to the client at once
    var taken: seq<Packet>            // stored messages taken out and posted to the packet handler
    ghost var accepted: seq<Packet>   // messages the queue took, in order of arrival

    // Messages taken out of the queue, followed by those still in it, are the accepted ones.
    ghost predicate Valid()
      reads this, que, que.nodes
    {
      && que.Valid() && que.maxSize == MAX_SAVED_PUBLISH && |que.Contents()| <= MAX_SAVED_PUBLISH
      && taken + que.Contents() == accepted
    }

    constructor (isAdapter: bool)
      ensures forwarded == [] && acks == []
      ensures Valid() && fresh(que) && que.nodes == [] && adapter == isAdapter && status == Disconnected
      ensures accepted == [] && taken == []
    {
      que := new Que<Packet>(MAX_SAVED_PUBLISH);
      adapter, status, holdPing := isAdapter, Disconnected, false;
      acks, forwarded, taken, accepted := [], [], [], [];
    }

    method ReplyAck(p: Packet)
      modifies this`acks
      ensures acks == old(acks) + AckOf(p)
    {
      if p.qos == 1 {
        acks := acks + [Puback(p.msgId)];
      } else if p.qos == 2 {
        acks := acks + [Pubrec(p.msgId)];
      }
    }

    // PacketQue::getPacket
    method GetClientSleepPacket() returns (p: Option<Packet>)
      requires que.Valid()
      ensures p == if que.Contents() == [] then None else Some(que.Contents()[0])
    {
      p := None;
      if que.cnt > 0 {
        p := que.Front();
      }
    }

    // The broker's PUBLISH. A sleeping client's message is acknowledged first and then stored if
    // memory and the queue allow. Otherwise it goes where its topic leads; one that no topic matches
    // is acknowledged and dropped.
    method HandlePublish(p: Packet, memory: bool, route: Route)
      requires Valid()
      modifies this, que, que.nodes
      ensures Valid() && status == old(status) && taken == old(taken)
      ensures accepted == if status == Asleep && memory && |old(que.Contents())| < 20
                          then old(accepted) + [p] else old(accepted)
      ensures acks == old(acks) + if status == Asleep || ((status == Active || status == Awake) && route == Cancel)
                                  then AckOf(p) else []
      ensures forwarded == old(forwarded)
                           + if (status == Active || status == Awake) && route == Forward then [p] else []
      ensures forall n :: n in que.nodes ==> n in old(que.nodes) || fresh(n)
    {
      hide Que.Valid;
      if status == Active || status == Awake {
        if route == Forward {
          forwarded := forwarded + [p];
        } else if route == Cancel {
          ReplyAck(p);
        }
      } else if status == Asleep {
        ReplyAck(p);
        if memory {
          ghost var c0 := que.Contents();
          var rc := que.Post(Some(p));
          if rc > 0 {
            assert taken + (c0 + [p]) == taken + c0 + [p];
            accepted := accepted + [p];
          }
        }
      }
    }

    // The first message leaves the queue and goes back to the packet handler.
    method TakeFirst(msg: Packet)
      requires Valid() && que.Contents() != [] && msg == que.Contents()[0]
      modifies this`taken, que, que.nodes
      ensures Valid() && taken == old(taken) + [msg] && que.Contents() == old(que.Contents())[1..]
      ensures forall n :: n in que.nodes ==> n in old(que.nodes)
    {
      hide Que.Valid, Que.Contents;
      MoveFirst(taken, que.Contents());
      que.Pop();
      taken := taken + [msg];
    }

    // The loop ends with the queue empty; its messages went out in order.
    method SendStoredPublish()
      requires Valid()
      modifies this`taken, que, que.nodes
      ensures Valid() && que.Contents() == [] && taken == accepted
      ensures forall n :: n in que.nodes ==> n in old(que.nodes)
    {
      hide Que.Valid, Que.Contents;
      ghost var ns := que.nodes;
      var msg := GetClientSleepPacket();
      while msg.Some?
        invariant Valid() && msg == (if que.Contents() == [] then None else Some(que.Contents()[0]))
        invariant forall n :: n in que.nodes ==> n in ns
        decreases |que.Contents()|
        modifies this`taken, que, ns
      {
        forall k | 0 <= k < |que.nodes| ensures que.nodes[k] in ns {
          assert que.nodes[k] in que.nodes;
        }
        TakeFirst(msg.value);
        msg := GetClientSleepPacket();
      }
      assert taken + [] == taken;
    }

    // CONNECT: a client that slept gets its stored messages; any other starts afresh. One that does
    // not parse does nothing.
    method HandleConnect(valid: bool)
      requires Valid()
      modifies this`taken, this`status, que, que.nodes
      ensures Valid() && accepted == old(accepted)
      ensures valid && (old(status) == Asleep || old(status) == Awake) ==>
                que.Contents() == [] && taken == accepted && status == old(status)
      ensures !valid || (old(status) != Asleep && old(status) != Awake) ==>
                && que.Contents() == old(que.Contents()) && taken == old(taken)
                && status == if adapter || !valid then old(status) else Disconnected
      ensures forall n :: n in que.nodes ==> n in old(que.nodes)
    {
      hide Que.Valid;
      if !valid {
        return;
      }
      if status == Asleep || status == Awake {
        SendStoredPublish();
      } else if !adapter {
        status := Disconnected;
      }
    }

    // PINGREQ: waking up drains a non-empty queue.
    method HandlePingreq()
      requires Valid()
      modifies this`taken, this`holdPing, que, que.nodes
      ensures Valid() && accepted == old(accepted)
      ensures status == Asleep || status == Awake ==> que.Contents() == [] && taken == accepted
      ensures status != Asleep && status != Awake ==> que.Contents() == old(que.Contents()) && taken == old(taken)
      ensures holdPing <==> (status == Asleep || status == Awake) && old(que.Contents()) != []
      ensures forall n :: n in que.nodes ==> n in old(que.nodes)
    {
      hide Que.Valid;
      var p := GetClientSleepPacket();
      if (status == Asleep || status == Awake) && p.Some? {
        SendStoredPublish();
        holdPing := true;
      } else {
        assert que.Contents() == [] ==> taken + [] == taken;
        holdPing := false;
      }
    }

    // One packet from the client: its handler, then the status.
    method FromClient(p: ClientPacket)
      requires Valid()
      modifies this`taken, this`holdPing, this`status, que, que.nodes
      ensures Valid() && accepted == old(accepted)
      ensures Drains(old(status), p) ==> que.Contents() == [] && taken == accepted
      ensures !Drains(old(status), p) ==> que.Contents() == old(que.Contents()) && taken == old(taken)
      ensures status == AfterPacket(adapter, old(status), p)
      ensures forall n :: n in que.nodes ==> n in old(que.nodes)
    {
      hide Que.Valid;
      match p {
        case ConnectSn(valid) => HandleConnect(valid);
        case PingreqSn => HandlePingreq();
        case _ =>
      }
      status := NextStatus(status, p);
    }
  }

  lemma MoveFirst<T>(a: seq<T>, c: seq<T>)
    requires c != []
    ensures a + [c[0]] + c[1..] == a + c
  {
  }

  datatype Step =
    | FromBroker(packet: Packet, memory: bool, route: Route)
    | ClientSent(snPacket: ClientPacket)
    | SetStatus(status: Status)

  // What a run comes to without any queue: the accepted messages and how many of them were taken,
  // the messages handed on at once, and the acknowledgements.
  datatype Account = Account(
    status: Status, accepted: seq<Packet>, taken: nat, forwarded: seq<Packet>, acks: seq<BrokerAck>)

  predicate Drains(s: Status, p: ClientPacket) {
    ((p.ConnectSn? && p.valid) || p.PingreqSn?) && (s == Asleep || s == Awake)
  }

  function AfterPacket(adapter: bool, s: Status, p: ClientPacket): Status {
    if p.ConnectSn? && p.valid && !adapter && s != Asleep && s != Awake then Disconnected else NextStatus(s, p)
  }

  function Settle(adapter: bool, a: Account, step: Step): Account {
    match step
    case FromBroker(p, memory, route) =>
      if a.status == Asleep then
        var fits := memory && |a.accepted| < a.taken + MAX_SAVED_PUBLISH;
        a.(accepted := if fits then a.accepted + [p] else a.accepted, acks := a.acks + AckOf(p))
      else if a.status == Active || a.status == Awake then
        if route == Forward then a.(forwarded := a.forwarded + [p])
        else if route == Cancel then a.(acks := a.acks + AckOf(p))
        else a
      else a
    case ClientSent(p) =>
      a.(status := AfterPacket(adapter, a.status, p), taken := if Drains(a.status, p) then |a.accepted| else a.taken)
    case SetStatus(st) => a.(status := st)
  }

  function Replay(adapter: bool, steps: seq<Step>): Account {
    if steps == [] then Account(Disconnected, [], 0, [], [])
    else Settle(adapter, Replay(adapter, steps[..|steps| - 1]), steps[|steps| - 1])
  }

  ghost predicate Tallies(s: Sleeper, a: Account)
    reads s
  {
    && s.status == a.status && s.accepted == a.accepted && a.taken <= |a.accepted| && s.taken == a.accepted[..a.taken]
    && s.forwarded == a.forwarded && s.acks == a.acks
  }

  // Any sequence of handler steps, with the status set from outside at will: the messages taken
  // from the queue followed by those in it are the accepted ones, none lost, doubled or reordered
  // on the way; at most 20 messages wait; and what was taken is what the account of the steps says.
  method RunSleeper(isAdapter: bool, steps: seq<Step>) returns (s: Sleeper)
    ensures s.que.Valid() && s.taken + s.que.Contents() == s.accepted
    ensures |s.que.Contents()| <= 20
    ensures Tallies(s, Replay(isAdapter, steps))
  {
    hide Que.Valid, Que.Contents, Settle;
    s := new Sleeper(isAdapter);
    for i := 0 to |steps|
      invariant s.adapter == isAdapter && Tallies(s, Replay(isAdapter, steps[..i]))
      invariant s.Valid() && fresh(s) && fresh(s.que) && fresh(s.que.nodes)
    {
      Perform(s, steps[i], Replay(isAdapter, steps[..i]));
      forall k | 0 <= k < |s.que.nodes| ensures fresh(s.que.nodes[k]) {
        assert s.que.nodes[k] in s.que.nodes;
      }
      assert steps[..i + 1][..i] == steps[..i];
    }
    assert steps[..|steps|] == steps;
  }

  // One step does to the sleeper what it does to the account.
  method Perform(s: Sleeper, step: Step, ghost a: Account)
    requires s.Valid() && Tallies(s, a)
    modifies s, s.que, s.que.nodes
    ensures s.Valid() && Tallies(s, Settle(s.adapter, a, step))
    ensures forall n :: n in s.que.nodes ==> n in old(s.que.nodes) || fresh(n)
  {
    hide Que.Valid, Que.Contents, NextStatus, Drains, AfterPacket;
    assert |a.accepted| == a.taken + |s.que.Contents()|;
    assert a.accepted[..|a.accepted|] == a.accepted;
    match step {
      case FromBroker(p, m, r) =>
        assert (a.accepted + [p])[..a.taken] == a.accepted[..a.taken];
        s.HandlePublish(p, m, r);
      case ClientSent(p) => s.FromClient(p);
      case SetStatus(st) => s.status := st;
    }
  }

  // ---------- when a client is asleep ----------

  lemma ReplayMore(adapter: bool, steps: seq<Step>, step: Step)
    ensures Replay(adapter, steps + [step]) == Settle(adapter, Replay(adapter, steps), step)
  {
    assert (steps + [step])[..|steps|] == steps;
  }

  // Messages from the broker, with memory to store them.
  predicate Arrivals(ms: seq<Step>) { forall i :: 0 <= i < |ms| ==> ms[i].FromBroker? && ms[i].memory }

  function Packets(ms: seq<Step>): seq<Packet>
    requires Arrivals(ms)
  {
    seq(|ms|, i requires 0 <= i < |ms| => ms[i].packet)
  }

  // PUBACK for QoS 1 and PUBREC for QoS 2, in order.
  function Acknowledged(ms: seq<Step>): seq<BrokerAck>
    requires Arrivals(ms)
  {
    if ms == [] then []
    else
      var p := ms[|ms| - 1].packet;
      Acknowledged(ms[..|ms| - 1])
      + if p.qos == 1 then [Puback(p.msgId)] else if p.qos == 2 then [Pubrec(p.msgId)] else []
  }

  // What arrives for a sleeping client is acknowledged and stored in order while at most 20 wait.
  lemma {:induction false} StoredAsleep(adapter: bool, before: seq<Step>, ms: seq<Step>)
    requires Arrivals(ms)
    requires var a := Replay(adapter, before); a.status == Asleep && |a.accepted| + |ms| <= a.taken + 20
    ensures var a, z := Replay(adapter, before), Replay(adapter, before + ms);
            && z.status == Asleep && z.accepted == a.accepted + Packets(ms) && z.taken == a.taken
            && z.forwarded == a.forwarded && z.acks == a.acks + Acknowledged(ms)
  {
    hide Replay;
    if ms == [] {
      assert before + ms == before && Packets(ms) == [];
    } else {
      var m := ms[..|ms| - 1];
      StoredAsleep(adapter, before, m);
      assert before + ms == before + m + [ms[|ms| - 1]];
      ReplayMore(adapter, before + m, ms[|ms| - 1]);
      assert Packets(ms) == Packets(m) + [ms[|ms| - 1].packet];
    }
  }

  // When 20 wait, one more is acknowledged but not stored.
  lemma FullAsleep(adapter: bool, before: seq<Step>, m: Step)
    requires m.FromBroker?
    requires var a := Replay(adapter, before); a.status == Asleep && |a.accepted| == a.taken + 20
    ensures Replay(adapter, before + [m]).accepted == Replay(adapter, before).accepted
  {
    ReplayMore(adapter, before, m);
  }

  // An active client that announces a duration falls asleep: up to 20 messages with memory are
  // stored in order. The next PINGREQ takes them all, and after the PINGRESP as many can be stored
  // again.
  lemma SleepsAndWakes(adapter: bool, before: seq<Step>, d: nat, ms: seq<Step>, more: seq<Step>)
    requires var a := Replay(adapter, before); a.status == Active && |a.accepted| == a.taken
    requires d > 0 && Arrivals(ms) && |ms| <= 20 && Arrivals(more) && |more| <= 20
    ensures var a := Replay(adapter, before);
            var slept := before + [ClientSent(DisconnectSn(d))] + ms;
            var woken := slept + [ClientSent(PingreqSn)];
            var again := woken + [ClientSent(PingrespSn)] + more;
            && Replay(adapter, slept).accepted == a.accepted + Packets(ms) && Replay(adapter, slept).taken == a.taken
            && Replay(adapter, slept).acks == a.acks + Acknowledged(ms)
            && Replay(adapter, woken).taken == |a.accepted| + |ms|
            && Replay(adapter, again).accepted == a.accepted + Packets(ms) + Packets(more)
            && Replay(adapter, again).taken == |a.accepted| + |ms|
            && Replay(adapter, again).forwarded == a.forwarded
  {
    hide Replay;
    var down := before + [ClientSent(DisconnectSn(d))];
    ReplayMore(adapter, before, ClientSent(DisconnectSn(d)));
    StoredAsleep(adapter, down, ms);
    var slept := down + ms;
    ReplayMore(adapter, slept, ClientSent(PingreqSn));
    var woken := slept + [ClientSent(PingreqSn)];
    ReplayMore(adapter, woken, ClientSent(PingrespSn));
    StoredAsleep(adapter, woken + [ClientSent(PingrespSn)], more);
  }

  // One that announces none is gone: nothing is stored, handed on or acknowledged.
  lemma {:induction false} GoneForGood(adapter: bool, before: seq<Step>, ms: seq<Step>)
    requires Replay(adapter, before).status == Active && forall i :: 0 <= i < |ms| ==> ms[i].FromBroker?
    ensures Replay(adapter, before + [ClientSent(DisconnectSn(0))] + ms)
         == Replay(adapter, before).(status := Disconnected)
  {
    hide Replay;
    var down := before + [ClientSent(DisconnectSn(0))];
    if ms == [] {
      ReplayMore(adapter, before, ClientSent(DisconnectSn(0)));
      assert down + ms == down;
    } else {
      var m := ms[..|ms| - 1];
      GoneForGood(adapter, before, m);
      assert down + ms == down + m + [ms[|ms| - 1]];
      ReplayMore(adapter, down + m, ms[|ms| - 1]);
    }
  }

  // A CONNECT takes the stored messages of a sleeper and makes it active: what comes next is handed
  // on at once.
  lemma ConnectWakes(adapter: bool, before: seq<Step>, p: Packet, memory: bool)
    requires Replay(adapter, before).status == Asleep || Replay(adapter, before).status == Awake
    ensures var a := Replay(adapter, before);
            var woken := before + [ClientSent(ConnectSn(true))];
            && Replay(adapter, woken).taken == |a.accepted| && Replay(adapter, woken).accepted == a.accepted
            && Replay(adapter, woken + [FromBroker(p, memory, Forward)]).forwarded == a.forwarded + [p]
            && Replay(adapter, woken + [FromBroker(p, memory, Forward)]).accepted == a.accepted
  {
    hide Replay;
    ReplayMore(adapter, before, ClientSent(ConnectSn(true)));
    ReplayMore(adapter, before + [ClientSent(ConnectSn(true))], FromBroker(p, memory, Forward));
  }

  // Any DISCONNECT ends the sleep; a client that is neither active nor asleep stays as it is, except
  // that a CONNECT starts it afresh.
  lemma OtherChanges(adapter: bool, before: seq<Step>, p: ClientPacket)
    ensures var s, t := Replay(adapter, before).status, Replay(adapter, before + [ClientSent(p)]).status;
            && ((s == Asleep || s == Awake) && p.DisconnectSn? ==> t == Disconnected)
            && ((s == Asleep || s == Awake) && p.OtherSn? ==> t == s)
            && (s == Active && !p.DisconnectSn? && !p.ConnectSn? ==> t == Active)
            && (s != Asleep && s != Awake && p == ConnectSn(true) && !adapter ==> t == Disconnected)
            && (s != Asleep && s != Awake && s != Active && p != ConnectSn(true) ==> t == s)
  {
    ReplayMore(adapter, before, ClientSent(p));
  }
}
