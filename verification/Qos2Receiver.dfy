/**
The receiving side of QoS 2 in the client (MQTTClient.h; section 4.3.3 of MQTT Version 3.1.1): a
table of packet identifiers in use, where 0 marks a free place.
*/
module Qos2Receiver {

  function IndexOf(t: seq<nat>, v: nat): (i: nat)
    ensures i <= |t| && v !in t[..i]
    ensures i < |t| ==> t[i] == v
    ensures i == |t| <==> v !in t
  {
    if t == [] then 0
    else if t[0] == v then 0
    else
      var i := IndexOf(t[1..], v) + 1;
      assert t[..i] == [t[0]] + t[1..][..i - 1];
      i
  }

  function Put(t: seq<nat>, at: nat, v: nat): seq<nat> { if at < |t| then t[at := v] else t }

  // useQoS2msgid and freeQoS2msgid act on the first place that holds 0, or the identifier.
  function Use(t: seq<nat>, id: nat): seq<nat> { Put(t, IndexOf(t, 0), id) }
  function Free(t: seq<nat>, id: nat): seq<nat> { Put(t, IndexOf(t, id), 0) }

  // The packets that matter: an incoming QoS 2 PUBLISH, and a PUBREL that was answered.
  datatype Event = Publish(id: nat) | Release(id: nat)

  // delivered and freed record, since the session was last cleaned, the identifiers handed to the
  // application and those that a PUBREL took out of the table.
  datatype Receiver = Receiver(table: seq<nat>, delivered: seq<nat>, freed: seq<nat>)

  function Fresh(size: nat): Receiver { Receiver(seq(size, _ => 0), [], []) }

  predicate Delivers(t: seq<nat>, e: Event) { e.Publish? && e.id !in t && 0 in t }

  predicate Frees(t: seq<nat>, e: Event) { e.Release? && e.id in t && e.id != 0 }

  function Step(r: Receiver, e: Event): Receiver {
    match e
    case Publish(id) =>
      if Delivers(r.table, e) then Receiver(Use(r.table, id), r.delivered + [id], r.freed) else r
    case Release(id) =>
      Receiver(Free(r.table, id), r.delivered, if Frees(r.table, e) then r.freed + [id] else r.freed)
  }

  // Non-zero entries are distinct; every identifier was delivered once for each time it was freed,
  // and once more while it is in the table; identifier 0 is never delivered.
  ghost predicate Lawful(r: Receiver) {
    && (forall i, j :: 0 <= i < j < |r.table| && r.table[i] != 0 ==> r.table[i] != r.table[j])
    && (forall id :: id > 0 ==>
          multiset(r.delivered)[id] == multiset(r.freed)[id] + if id in r.table then 1 else 0)
    && 0 !in r.delivered
  }

  lemma FreshLawful(size: nat)
    ensures Lawful(Fresh(size))
  {
  }

  lemma PutMembers(t: seq<nat>, at: nat, v: nat, x: nat)
    requires at < |t| && x != v
    requires forall j :: 0 <= j < |t| && j != at ==> t[j] != t[at] || t[at] == 0
    ensures x != t[at] ==> (x in Put(t, at, v) <==> x in t)
    ensures x == t[at] && x != 0 ==> x !in Put(t, at, v)
    ensures v in Put(t, at, v)
  {
    var u := Put(t, at, v);
    assert u[at] == v;
    if x in u {
      var j :| 0 <= j < |u| && u[j] == x;
      assert t[j] == x;
    }
    if x in t && x != t[at] {
      var j :| 0 <= j < |t| && t[j] == x;
      assert u[j] == x;
    }
  }

  lemma StepPublish(r: Receiver, id: nat)
    requires Lawful(r) && Delivers(r.table, Publish(id))
    ensures Lawful(Step(r, Publish(id)))
  {
    var at := IndexOf(r.table, 0);
    var s := Step(r, Publish(id));
    assert 0 in r.table;
    forall x | x > 0
      ensures multiset(s.delivered)[x] == multiset(s.freed)[x] + if x in s.table then 1 else 0
    {
      if x != id {
        PutMembers(r.table, at, id, x);
      } else {
        assert s.table[at] == id;
      }
    }
  }

  lemma StepRelease(r: Receiver, id: nat)
    requires Lawful(r) && Frees(r.table, Release(id))
    ensures Lawful(Step(r, Release(id)))
  {
    var at := IndexOf(r.table, id);
    var s := Step(r, Release(id));
    forall j | 0 <= j < |r.table| && j != at ensures r.table[j] != id {
      assert r.table[at] == id;
    }
    forall x | x > 0
      ensures multiset(s.delivered)[x] == multiset(s.freed)[x] + if x in s.table then 1 else 0
    {
      PutMembers(r.table, at, 0, x);
    }
  }

  lemma StepLawful(r: Receiver, e: Event)
    requires Lawful(r)
    ensures Lawful(Step(r, e)) && |Step(r, e).table| == |r.table|
  {
    if Delivers(r.table, e) {
      StepPublish(r, e.id);
    } else if Frees(r.table, e) {
      StepRelease(r, e.id);
    } else if e.Release? {
      var at := IndexOf(r.table, e.id);
      assert at < |r.table| ==> r.table[at] == 0;
      assert Free(r.table, e.id) == r.table;
    }
  }

  lemma UsedIn(t: seq<nat>, id: nat)
    requires 0 in t
    ensures id in Use(t, id)
  {
    assert Use(t, id)[IndexOf(t, 0)] == id;
  }

  // In an empty table an identifier takes a place and, once released, leaves it empty.
  lemma UseThenFree(size: nat, id: nat)
    requires size > 0 && id != 0
    ensures var r := Fresh(size);
            Delivers(r.table, Publish(id)) && Step(Step(r, Publish(id)), Release(id)).table == r.table
  {
    var t := Fresh(size).table;
    assert t[0] == 0 && IndexOf(t, 0) == 0;
    assert Use(t, id)[0] == id && IndexOf(Use(t, id), id) == 0;
  }

  // Releasing an identifier takes out that one and no other.
  lemma FreedOnly(r: Receiver, id: nat, x: nat)
    requires Lawful(r) && x != 0
    ensures x in Step(r, Release(id)).table <==> x in r.table && x != id
  {
    if x != id {
      if x in r.table {
        StepKeeps(r, Release(id), x);
      }
      var at := IndexOf(r.table, id);
      if x in Step(r, Release(id)).table {
        var j :| 0 <= j < |r.table| && Step(r, Release(id)).table[j] == x;
        assert r.table[j] == x;
      }
    } else if id in r.table {
      var at := IndexOf(r.table, id);
      forall j | 0 <= j < |r.table| && j != at ensures r.table[j] != id {
        assert r.table[at] == id;
      }
    }
  }

  // Only its own PUBREL takes an identifier out of the table.
  lemma StepKeeps(r: Receiver, e: Event, id: nat)
    requires id != 0 && id in r.table && e != Release(id)
    ensures id in Step(r, e).table
  {
    var x :| 0 <= x < |r.table| && r.table[x] == id;
    var at := IndexOf(r.table, if e.Publish? then 0 else e.id);
    assert at < |r.table| ==> at != x;
    assert Step(r, e).table[x] == id;
  }
}
