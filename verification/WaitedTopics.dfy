/**
The map from message ids in flight to topic ids, TopicIdMap of MQTTSNGWTopic.cpp, and the
acknowledgement handlers that look topics up in it (MQTTGWPublishHandler.cpp,
MQTTGWSubscribeHandler.cpp).
*/
module WaitedTopics {
  import opened Basics
  import opened LinkedLists
  import T = Topics

  const MAX_INFLIGHT := 10

  datatype TopicRef = TopicRef(topicId: nat, kind: T.Kind)

  type Entry = Keyed<TopicRef>

  ghost predicate Distinct(s: seq<Entry>) {
    forall i, j :: 0 <= i < j < |s| ==> s[i].msgId != s[j].msgId
  }

  // ---------- the reference: a plain map of bounded size ----------

  type Waited = map<nat, TopicRef>

  predicate Acceptable(topicId: nat, kind: T.Kind) { topicId != 0 || kind == T.Short }

  function Record(m: Waited, msgId: nat, topicId: nat, kind: T.Kind): Waited {
    if |m| > 2 * MAX_INFLIGHT || !Acceptable(topicId, kind) then m else m[msgId := TopicRef(topicId, kind)]
  }

  ghost function KeySet(s: seq<Entry>): set<nat> { set i | 0 <= i < |s| :: s[i].msgId }

  // The map that a list of entries stands for.
  ghost function AsMap(s: seq<Entry>): Waited { map k | k in KeySet(s) :: Value(s, k) }

  ghost function Value(s: seq<Entry>, k: nat): TopicRef
    requires k in KeySet(s)
  {
    InKeySet(s, k);
    s[Position(s, k)].value
  }

  lemma InKeySet(s: seq<Entry>, k: nat)
    ensures k in KeySet(s) <==> Position(s, k) < |s|
  {
  }

  lemma {:induction false} KeySetSize(s: seq<Entry>)
    requires Distinct(s)
    ensures |KeySet(s)| == |s|
  {
    if s != [] {
      var t, k := s[..|s| - 1], s[|s| - 1].msgId;
      assert Distinct(t) && forall i :: 0 <= i < |t| ==> t[i] == s[i];
      KeySetSize(t);
      assert k !in KeySet(t);
      forall x ensures x in KeySet(s) <==> x in KeySet(t) + {k} {
        if x in KeySet(s) {
          var i :| 0 <= i < |s| && s[i].msgId == x;
          assert i < |t| ==> t[i].msgId == x;
        }
        if x in KeySet(t) {
          var i :| 0 <= i < |t| && t[i].msgId == x;
          assert s[i].msgId == x;
        }
      }
      assert KeySet(s) == KeySet(t) + {k};
    }
  }

  lemma AsMapSize(s: seq<Entry>)
    requires Distinct(s)
    ensures |AsMap(s)| == |s|
  {
    hide KeySet;
    KeySetSize(s);
    assert AsMap(s).Keys == KeySet(s);
  }

  // The map has an entry for k exactly when the list does, namely the first one.
  lemma AsMapAt(s: seq<Entry>, k: nat)
    ensures k in AsMap(s) <==> Position(s, k) < |s|
    ensures k in AsMap(s) ==> AsMap(s)[k] == s[Position(s, k)].value
  {
    InKeySet(s, k);
  }

  lemma DistinctPosition(s: seq<Entry>, i: nat)
    requires Distinct(s) && i < |s|
    ensures Position(s, s[i].msgId) == i
  {
  }

  lemma PositionWithout(s: seq<Entry>, i: nat, k: nat)
    requires Distinct(s) && i < |s|
    ensures Distinct(Without(s, i))
    ensures k == s[i].msgId ==> Position(Without(s, i), k) == |s| - 1
    ensures k != s[i].msgId && Position(s, k) == |s| ==> Position(Without(s, i), k) == |s| - 1
    ensures k != s[i].msgId && Position(s, k) < |s| ==>
              Position(Without(s, i), k) < |s| - 1 && Without(s, i)[Position(Without(s, i), k)] == s[Position(s, k)]
  {
    var w := Without(s, i);
    WithoutAt(s, i);
    var p := Position(s, k);
    if k != s[i].msgId && p < |s| {
      var q := if p < i then p else p - 1;
      assert w[q] == s[p];
      DistinctPosition(w, q);
    }
  }

  lemma WithoutIsRemoval(s: seq<Entry>, i: nat)
    requires Distinct(s) && i < |s|
    ensures Distinct(Without(s, i)) && AsMap(Without(s, i)) == AsMap(s) - {s[i].msgId}
  {
    hide AsMap, Distinct, Without;
    PositionWithout(s, i, 0);
    var w, m := Without(s, i), AsMap(s) - {s[i].msgId};
    forall k: nat ensures (k in AsMap(w) <==> k in m) && (k in m ==> AsMap(w)[k] == m[k]) {
      PositionWithout(s, i, k);
      AsMapAt(s, k);
      AsMapAt(w, k);
    }
  }

  lemma AppendIsUpdate(s: seq<Entry>, e: Entry)
    requires Distinct(s) && Position(s, e.msgId) == |s|
    ensures Distinct(s + [e]) && AsMap(s + [e]) == AsMap(s)[e.msgId := e.value]
  {
    var t := s + [e];
    assert Distinct(t);
    hide AsMap, Distinct;
    var m := AsMap(s)[e.msgId := e.value];
    forall k: nat ensures (k in AsMap(t) <==> k in m) && (k in m ==> AsMap(t)[k] == m[k]) {
      AsMapAt(s, k);
      AsMapAt(t, k);
      PositionAppend(s, e, k);
    }
  }

  lemma PositionAppend(s: seq<Entry>, e: Entry, k: nat)
    ensures Position(s + [e], k) == if Position(s, k) == |s| && k != e.msgId then |s| + 1 else Position(s, k)
  {
    var t := s + [e];
    assert forall j :: 0 <= j < |s| ==> t[j] == s[j];
    assert t[|s|] == e;
  }

  // ---------- the table ----------

  class TopicIdMap {
    const list: DoublyLinked<Entry>
    var cnt: int

    // The counter agrees with the list as long as only present ids are erased.
    ghost predicate Valid()
      reads this, list, list.nodes
    {
      list.Valid() && Distinct(list.Values()) && cnt == |list.Values()| && cnt <= 2 * MAX_INFLIGHT + 1
    }

    ghost function Abstract(): Waited
      reads this, list
    {
      AsMap(list.Values())
    }

    constructor ()
      ensures Valid() && fresh(list) && list.nodes == [] && Abstract() == map[]
    {
      list := new DoublyLinked<Entry>();
      cnt := 0;
    }

    method GetElement(msgId: nat) returns (e: Option<Entry>)
      requires Valid()
      ensures e.Some? <==> msgId in Abstract()
      ensures e.Some? ==> e.value.msgId == msgId && Abstract()[msgId] == e.value.value
    {
      hide DoublyLinked.Valid, AsMap;
      AsMapAt(list.Values(), msgId);
      var p := list.Find((x: Entry) => HasMsgId(x, msgId));
      e := if p != null then Some(p.value) else None;
    }

    // The counter goes down whether or not the id is present: it stays right exactly when it is.
    method Erase(msgId: nat)
      requires Valid()
      modifies this, list, list.nodes
      ensures list.Valid() && Distinct(list.Values()) && cnt == old(cnt) - 1
      ensures Abstract() == old(Abstract()) - {msgId}
      ensures cnt == |list.Values()| <==> msgId in old(Abstract())
      ensures forall n :: n in list.nodes ==> n in old(list.nodes)
    {
      hide DoublyLinked.Valid, AsMap, Without, Distinct;
      ghost var vs := list.Values();
      AsMapAt(vs, msgId);
      var p := list.Find((x: Entry) => HasMsgId(x, msgId));
      if p != null {
        ghost var i := Position(vs, msgId);
        WithoutIsRemoval(vs, i);
        WithoutAt(list.nodes, i);
        list.Unlink(p, i);
      } else {
        assert AsMap(vs) - {msgId} == AsMap(vs);
      }
      cnt := cnt - 1;
    }

    method Add(msgId: nat, topicId: nat, kind: T.Kind) returns (added: bool)
      requires Valid()
      modifies this, list, list.nodes
      ensures Valid() && Abstract() == Record(old(Abstract()), msgId, topicId, kind)
      ensures added <==> old(|Abstract()|) <= 20 && (topicId != 0 || kind == T.Short)
      ensures Abstract() == if added then old(Abstract())[msgId := TopicRef(topicId, kind)] else old(Abstract())
      ensures forall n :: n in list.nodes ==> n in old(list.nodes) || fresh(n)
    {
      hide DoublyLinked.Valid, AsMap, Distinct;
      AsMapSize(list.Values());
      if cnt > 2 * MAX_INFLIGHT || (topicId == 0 && kind != T.Short) {
        return false;
      }
      var e := GetElement(msgId);
      if e.Some? {
        Erase(msgId);
      }
      AsMapAt(list.Values(), msgId);
      AppendIsUpdate(list.Values(), Keyed(msgId, TopicRef(topicId, kind)));
      forall k | 0 <= k < |list.nodes| ensures list.nodes[k] in old(list.nodes) {
        assert list.nodes[k] in list.nodes;
      }
      assert Abstract()[msgId := TopicRef(topicId, kind)] == old(Abstract())[msgId := TopicRef(topicId, kind)];
      var _ := list.Append(Keyed(msgId, TopicRef(topicId, kind)));
      cnt := cnt + 1;
      added := true;
    }

    method Clear()
      modifies this, list
      ensures Valid() && Abstract() == map[] && list.nodes == []
    {
      list.Clear();
      cnt := 0;
    }

    // handlePuback and handleSuback: an acknowledgement that is waited for is passed on with the
    // topic id recorded for it and then forgotten; any other is ignored.
    method Acknowledge(msgId: nat) returns (reply: Option<nat>)
      requires Valid()
      modifies this, list, list.nodes
      ensures Valid() && Abstract() == old(Abstract()) - {msgId}
      ensures reply == if msgId in old(Abstract()) then Some(old(Abstract())[msgId].topicId) else None
      ensures forall n :: n in list.nodes ==> n in old(list.nodes)
    {
      hide DoublyLinked.Valid, AsMap, Distinct;
      reply := None;
      var e := GetElement(msgId);
      if e.Some? {
        reply := Some(e.value.value.topicId);
        Erase(msgId);
      } else {
        assert Abstract() - {msgId} == Abstract();
      }
    }
  }

  // ---------- whole runs ----------

  datatype Op = Wait(msgId: nat, topicId: nat, kind: T.Kind) | Ack(msgId: nat) | Reset

  function Replay(ops: seq<Op>): Waited {
    if ops == [] then map[]
    else
      var m := Replay(ops[..|ops| - 1]);
      match ops[|ops| - 1]
      case Wait(k, t, d) => Record(m, k, t, d)
      case Ack(k) => m - {k}
      case Reset => map[]
  }

  // The latest recording of a message id that has not been acknowledged or reset since.
  function Latest(ops: seq<Op>, msgId: nat): Option<TopicRef> {
    if ops == [] then None
    else
      var before, op := ops[..|ops| - 1], ops[|ops| - 1];
      match op
      case Wait(k, t, d) =>
        if k == msgId && |Replay(before)| <= 2 * MAX_INFLIGHT && Acceptable(t, d) then Some(TopicRef(t, d))
        else Latest(before, msgId)
      case Ack(k) => if k == msgId then None else Latest(before, msgId)
      case Reset => None
  }

  lemma {:induction false} ReplayIsLatest(ops: seq<Op>, msgId: nat)
    ensures Latest(ops, msgId) == if msgId in Replay(ops) then Some(Replay(ops)[msgId]) else None
  {
    if ops != [] {
      ReplayIsLatest(ops[..|ops| - 1], msgId);
    }
  }

  // Any sequence of recordings, acknowledgements and resets: the counter is the number of ids
  // waited for, at most 21, and a lookup finds the latest accepted recording.
  method RunMap(ops: seq<Op>, msgId: nat) returns (size: int, found: Option<TopicRef>)
    ensures size == |Replay(ops)| <= 21
    ensures found == Latest(ops, msgId)
  {
    hide DoublyLinked.Valid, Record, AsMap, Distinct;
    var t := new TopicIdMap();
    for i := 0 to |ops|
      invariant t.Valid() && fresh(t) && fresh(t.list) && fresh(t.list.nodes)
      invariant t.Abstract() == Replay(ops[..i])
    {
      assert ops[..i + 1][..i] == ops[..i];
      match ops[i] {
        case Wait(k, topicId, kind) => var _ := t.Add(k, topicId, kind);
        case Ack(k) => var _ := t.Acknowledge(k);
        case Reset => t.Clear();
      }
      forall k | 0 <= k < |t.list.nodes| ensures fresh(t.list.nodes[k]) {
        assert t.list.nodes[k] in t.list.nodes;
      }
    }
    assert ops[..|ops|] == ops;
    ReplayIsLatest(ops, msgId);
    AsMapSize(t.list.Values());
    size := t.cnt;
    var e := t.GetElement(msgId);
    found := if e.Some? then Some(e.value.value) else None;
  }
}
