/**
The topics of one gateway client, Topics of MQTTSNGWTopic.cpp: a singly linked list with at most 50
entries, numbered by a 16-bit counter that wraps.
*/
module Topics {
  import opened Basics
  import opened IdCycle
  import opened TopicLevels
  import GatewayMatcher

  const MAX_TOPICS := 50

  datatype Kind = Normal | Predefined | Short

  class Topic {
    const kind: Kind
    const name: string
    const id: nat
    ghost const serial: nat   // which allocation gave the id, for normal topics
    var next: Topic?

    constructor (k: Kind, n: string, i: nat, ghost s: nat)
      ensures kind == k && name == n && id == i && serial == s && next == null
    {
      kind, name, id, serial, next := k, n, i, s, null;
    }
  }

  ghost function TopicAt(ns: seq<Topic>, i: int): Topic? { if 0 <= i < |ns| then ns[i] else null }

  lemma TopicAtIs(ns: seq<Topic>, i: int)
    ensures TopicAt(ns, i) == if 0 <= i < |ns| then ns[i] else null
  {
  }

  ghost predicate Chain(ns: seq<Topic>)
    reads ns
  {
    && (forall i :: 0 <= i < |ns| ==> ns[i].next == TopicAt(ns, i + 1))
    && (forall i, j :: 0 <= i < j < |ns| ==> ns[i] != ns[j])
  }

  ghost predicate NamesDistinct(ns: seq<Topic>) {
    forall i, j :: 0 <= i < j < |ns| ==> ns[i].name != ns[j].name
  }

  // The normal topics were numbered, in list order, by allocations after the last erasure.
  ghost predicate Numbered(ns: seq<Topic>, since: nat, allocs: nat) {
    && (forall i :: 0 <= i < |ns| && ns[i].kind == Normal ==>
          since < ns[i].serial <= allocs && ns[i].id == IdOf(ns[i].serial))
    && (forall i, j :: 0 <= i < j < |ns| && ns[i].kind == Normal && ns[j].kind == Normal ==>
          ns[i].serial < ns[j].serial)
  }

  // A C string ends at its first zero character.
  function CStr(s: string): (t: string)
    ensures t <= s && '\0' !in t
    ensures |t| < |s| ==> s[|t|] == '\0'
  {
    if s == "" || s[0] == '\0' then "" else [s[0]] + CStr(s[1..])
  }

  ghost predicate FirstNamed(ns: seq<Topic>, name: string, t: Topic?) {
    if t == null then forall i :: 0 <= i < |ns| ==> ns[i].name != name
    else t in ns && t.name == name
  }

  ghost predicate Known(ns: seq<Topic>, name: string) { exists i :: 0 <= i < |ns| && ns[i].name == name }

  class Topics {
    var first: Topic?
    var nextTopicId: nat
    var cnt: nat
    ghost var nodes: seq<Topic>
    ghost var allocs: nat
    ghost var since: nat

    ghost predicate Valid()
      reads this, nodes
    {
      && Chain(nodes) && first == TopicAt(nodes, 0)
      && cnt == |nodes| <= MAX_TOPICS && NamesDistinct(nodes)
      && since <= allocs <= since + |nodes| && Numbered(nodes, since, allocs) && nextTopicId == IdOf(allocs)
    }

    constructor ()
      ensures Valid() && nodes == [] && allocs == 0
    {
      first, nextTopicId, cnt, nodes, allocs, since := null, 0, 0, [], 0, 0;
    }

    method GetTopicByName(name: string) returns (t: Topic?)
      requires Valid()
      ensures FirstNamed(nodes, name, t)
    {
      hide TopicAt, NamesDistinct, Numbered;
      t := first;
      ghost var k := 0;
      TopicAtIs(nodes, 0);
      while t != null
        invariant k <= |nodes| && t == (if k < |nodes| then nodes[k] else null)
        invariant forall i :: 0 <= i < k ==> nodes[i].name != name
        decreases |nodes| - k
      {
        if t.name == name {
          return;
        }
        TopicAtIs(nodes, k + 1);
        t, k := t.next, k + 1;
      }
    }

    // The first topic of that type and identifier; for normal topics lookup inverts the allocation.
    method GetTopicById(kind: Kind, id: nat) returns (t: Topic?)
      requires Valid()
      ensures t != null ==> t.kind == kind && t.id == id
      ensures exists k :: 0 <= k <= |nodes| && t == TopicAt(nodes, k)
                          && forall i :: 0 <= i < k ==> nodes[i].kind != kind || nodes[i].id != id
      ensures kind == Normal ==> forall n :: n in nodes && n.kind == Normal && n.id == id ==> t == n
    {
      hide TopicAt, NamesDistinct, Numbered;
      t := first;
      ghost var k := 0;
      TopicAtIs(nodes, 0);
      while t != null && !(t.kind == kind && t.id == id)
        invariant k <= |nodes| && t == (if k < |nodes| then nodes[k] else null)
        invariant forall i :: 0 <= i < k ==> nodes[i].kind != kind || nodes[i].id != id
        decreases |nodes| - k
      {
        TopicAtIs(nodes, k + 1);
        t, k := t.next, k + 1;
      }
      TopicAtIs(nodes, k);
      if kind == Normal && t != null {
        forall n | n in nodes && n.kind == Normal && n.id == id ensures t == n {
          NormalIdsDistinct(nodes, since, allocs, n, t);
        }
      }
    }

    method GetNextTopicId() returns (id: nat)
      requires nextTopicId == IdOf(allocs)
      modifies this`nextTopicId, this`allocs
      ensures nextTopicId == IdOf(allocs) && allocs == old(allocs) + 1 && id == nextTopicId
    {
      CounterSteps(allocs);
      nextTopicId := NextTopicId(nextTopicId);
      allocs := allocs + 1;
      id := nextTopicId;
    }

    // Walks to the end of the list and hangs the topic on.
    method Append(topic: Topic)
      requires Chain(nodes) && first == TopicAt(nodes, 0) && topic !in nodes && topic.next == null
      modifies this`first, this`nodes, nodes
      ensures Chain(nodes) && first == TopicAt(nodes, 0) && nodes == old(nodes) + [topic]
    {
      hide TopicAt;
      ghost var ns := nodes;
      TopicAtIs(ns, 0);
      if first == null {
        first := topic;
      } else {
        var tp := first;
        ghost var k := 0;
        TopicAtIs(ns, 1);
        while tp.next != null
          invariant k < |ns| && tp == ns[k] && tp.next == (if k + 1 < |ns| then ns[k + 1] else null)
          decreases |ns| - k
          modifies {}
        {
          tp, k := tp.next, k + 1;
          TopicAtIs(ns, k + 1);
        }
        tp.next := topic;
      }
      nodes := ns + [topic];
      Appended(ns, topic);
      TopicAtIs(nodes, 0);
      TopicAtIs(nodes, |ns|);
      TopicAtIs(nodes, |ns| + 1);
    }

    // id 0 asks for a normal topic with a new identifier. A full list is refused even a known name.
    method AddName(name: string, id: nat) returns (t: Topic?)
      requires Valid()
      modifies this, nodes
      ensures Valid()
      ensures old(|nodes|) >= 50 ==> t == null && nodes == old(nodes)
      ensures old(|nodes|) < 50 ==> t != null && t.name == name && t in nodes
      ensures t != null ==>
                if t in old(nodes) then nodes == old(nodes) && allocs == old(allocs)
                else nodes == old(nodes) + [t] && fresh(t)
                     && t.kind == (if id == 0 then Normal else Predefined)
                     && t.id == (if id == 0 then IdOf(old(allocs) + 1) else id)
                     && allocs == old(allocs) + (if id == 0 then 1 else 0)
      ensures nodes == old(nodes) <==> old(|nodes|) >= 50 || Known(old(nodes), name)
      ensures since == old(since) && (nodes == old(nodes) ==> allocs == old(allocs))
    {
      hide TopicAt, Numbered;
      if cnt >= MAX_TOPICS {
        return null;
      }
      t := GetTopicByName(name);
      if t != null {
        return;
      }
      ghost var ns, a0 := nodes, allocs;
      var kind, n := Predefined, id;
      if id == 0 {
        kind := Normal;
        n := GetNextTopicId();
      }
      var topic := new Topic(kind, name, n, allocs);
      cnt := cnt + 1;
      Append(topic);
      NumberedMore(ns, since, a0, topic, allocs);
      t := topic;
    }

    // A name that has no normal place yet gets one under its C string.
    method Add(kind: Kind, name: string) returns (t: Topic?)
      requires Valid()
      modifies this, nodes
      ensures Valid() && since == old(since)
      ensures kind != Normal ==> t == null && nodes == old(nodes)
      ensures t != null ==> (t.name == name || t.name == CStr(name)) && t in nodes
      ensures kind == Normal && Known(old(nodes), name) ==>
                t != null && t.name == name && nodes == old(nodes) && allocs == old(allocs)
      ensures kind == Normal && old(|nodes|) < 50 ==> t != null
      ensures kind == Normal && old(|nodes|) >= 50 && !Known(old(nodes), name) ==> t == null
      ensures nodes == old(nodes)
              || (t != null && fresh(t) && nodes == old(nodes) + [t] && t.kind == Normal
                  && t.name == CStr(name) && t.id == IdOf(old(allocs) + 1) && allocs == old(allocs) + 1
                  && !Known(old(nodes), name) && !Known(old(nodes), CStr(name)))
      ensures nodes == old(nodes) ==> allocs == old(allocs)
      ensures nodes == old(nodes) && kind == Normal ==>
                old(|nodes|) >= 50 || Known(old(nodes), name) || Known(old(nodes), CStr(name))
    {
      hide TopicAt, Numbered, NamesDistinct, Chain;
      if kind != Normal {
        return null;
      }
      t := GetTopicByName(name);
      if t == null {
        t := AddName(CStr(name), 0);
      }
    }

    // Takes the topic at position p of the current list cur out of it.
    method Bypass(prev: Topic?, topic: Topic, ghost cur: seq<Topic>, ghost p: nat)
      requires Chain(cur) && first == TopicAt(cur, 0) && p < |cur| && cur[p] == topic && prev == TopicAt(cur, p - 1)
      modifies this`first, prev
      ensures Chain(Without(cur, p)) && first == TopicAt(Without(cur, p), 0)
    {
      hide TopicAt;
      ghost var w := Without(cur, p);
      TopicAtIs(cur, 0);
      TopicAtIs(cur, p - 1);
      TopicAtIs(cur, p + 1);
      TopicAtIs(w, 0);
      if first == topic {
        first := topic.next;
      }
      if prev != null {
        prev.next := topic.next;
      }
      forall j | 0 <= j < |w| ensures w[j].next == TopicAt(w, j + 1) {
        NextWithout(cur, p, j);
      }
    }

    // Where the walk of eraseNormal over ns stands at position k: kept are the topics kept so far,
    // prev the last of them, topic the next one to look at.
    ghost predicate Walk(ns: seq<Topic>, k: nat, topic: Topic?, prev: Topic?, kept: seq<Topic>)
      reads this`first, this`cnt, ns, kept
    {
      && k <= |ns| && topic == TopicAt(ns, k) && kept == Keepers(ns[..k])
      && prev == (if kept == [] then null else kept[|kept| - 1]) && (prev != null ==> prev in ns)
      && Chain(kept + ns[k..]) && first == TopicAt(kept + ns[k..], 0) && cnt == |kept| + (|ns| - k)
    }

    // One topic of the walk: a normal one is taken out, any other kept.
    method Visit(topic0: Topic, prev0: Topic?, ghost kept0: seq<Topic>, ghost ns: seq<Topic>, ghost k: nat)
      returns (topic: Topic?, prev: Topic?, ghost kept: seq<Topic>)
      requires Walk(ns, k, topic0, prev0, kept0)
      modifies this`first, this`cnt, prev0
      ensures k < |ns| && Walk(ns, k + 1, topic, prev, kept) && (prev != null ==> prev in ns)
    {
      hide TopicAt, Without, Chain, Keepers;
      TopicAtIs(ns, k);
      prev, kept := prev0, kept0;
      Cursors(kept, ns, k);
      ChainNext(kept + ns[k..], |kept|);
      topic := topic0.next;
      if topic0.kind == Normal {
        Bypass(prev, topic0, kept + ns[k..], |kept|);
        cnt := cnt - 1;
      } else {
        prev := topic0;
        kept := kept + [topic0];
      }
    }

    lemma WalkStarts()
      requires Chain(nodes) && first == TopicAt(nodes, 0) && cnt == |nodes|
      ensures Walk(nodes, 0, first, null, [])
    {
      assert nodes[..0] == [] && [] + nodes[0..] == nodes;
    }

    lemma WalkEnds(ns: seq<Topic>, k: nat, prev: Topic?, kept: seq<Topic>)
      requires Walk(ns, k, null, prev, kept)
      ensures kept == Keepers(ns) && Chain(kept) && first == TopicAt(kept, 0) && cnt == |kept|
    {
      TopicAtIs(ns, k);
      assert ns[..|ns|] == ns && kept + ns[|ns|..] == kept;
    }

    // The walk: what is left in the list is its other topics, in order.
    method DropNormal() returns (ghost kept: seq<Topic>)
      requires Chain(nodes) && first == TopicAt(nodes, 0) && cnt == |nodes|
      modifies this`first, this`cnt, nodes
      ensures kept == Keepers(nodes) && Chain(kept) && first == TopicAt(kept, 0) && cnt == |kept|
    {
      hide TopicAt, Walk, Chain, Keepers;
      ghost var ns, k := nodes, 0;
      kept := [];
      var topic: Topic?, prev: Topic? := first, null;
      WalkStarts();
      while topic != null
        invariant k <= |ns| && Walk(ns, k, topic, prev, kept) && (prev != null ==> prev in ns)
        decreases |ns| - k
        modifies this`first, this`cnt, ns
      {
        topic, prev, kept := Visit(topic, prev, kept, ns, k);
        k := k + 1;
      }
      WalkEnds(ns, k, prev, kept);
    }

    // Takes every normal topic out of the list.
    method EraseNormal()
      requires Valid()
      modifies this, nodes
      ensures Valid() && nodes == Keepers(old(nodes))
      ensures allocs == old(allocs) && since == allocs && nextTopicId == old(nextTopicId)
      ensures exists js :: KeptAt(old(nodes), js, nodes)
    {
      hide TopicAt, NamesDistinct, Numbered, Chain, Keepers, KeptAt;
      KeepersKept(nodes);
      ghost var js := KeepersInOrder(nodes);
      ghost var kept := DropNormal();
      nodes, since := kept, allocs;
      KeepersNumbered(nodes, allocs);
    }

    // The first topic whose name, taken as a filter, matches by the gateway's matcher.
    method Match(kind: Kind, name: string) returns (t: Topic?)
      requires Valid()
      ensures kind != Normal ==> t == null
      ensures t != null ==> GatewayMatcher.GatewayLevels(Split(t.name), Split(name))
      ensures kind == Normal ==>
                exists k :: 0 <= k <= |nodes| && t == TopicAt(nodes, k)
                            && forall i :: 0 <= i < k ==>
                                 !GatewayMatcher.GatewayLevels(Split(nodes[i].name), Split(name))
    {
      hide TopicAt, NamesDistinct, Numbered, GatewayMatcher.GatewayLevels, Split;
      if kind != Normal {
        return null;
      }
      t := first;
      ghost var k := 0;
      TopicAtIs(nodes, 0);
      while t != null
        invariant k <= |nodes| && t == (if k < |nodes| then nodes[k] else null)
        invariant forall i :: 0 <= i < k ==> !GatewayMatcher.GatewayLevels(Split(nodes[i].name), Split(name))
        decreases |nodes| - k
      {
        var matched := GatewayMatcher.IsMatch(t.name, name);
        if matched {
          TopicAtIs(nodes, k);
          return;
        }
        TopicAtIs(nodes, k + 1);
        t, k := t.next, k + 1;
      }
      TopicAtIs(nodes, k);
    }
  }

  ghost function Keepers(ns: seq<Topic>): seq<Topic> {
    if ns == [] then []
    else Keepers(ns[..|ns| - 1]) + if ns[|ns| - 1].kind == Normal then [] else [ns[|ns| - 1]]
  }

  lemma NextWithout(ns: seq<Topic>, p: nat, j: nat)
    requires p < |ns| && j < |ns| - 1
    ensures var k := if j < p then j else j + 1;
            && Without(ns, p)[j] == ns[k]
            && TopicAt(Without(ns, p), j + 1) == TopicAt(ns, if k + 1 == p then k + 2 else k + 1)
  {
  }

  lemma ChainNext(ns: seq<Topic>, i: nat)
    requires Chain(ns) && i < |ns|
    ensures ns[i].next == TopicAt(ns, i + 1)
  {
  }

  // Where the walk over ns stands when kept has been kept of its first k topics.
  lemma Cursors(kept: seq<Topic>, ns: seq<Topic>, k: nat)
    requires k < |ns|
    ensures var cur := kept + ns[k..];
            && cur[|kept|] == ns[k] && TopicAt(cur, |kept| + 1) == TopicAt(ns, k + 1)
            && TopicAt(cur, |kept| - 1) == (if kept == [] then null else kept[|kept| - 1])
            && Without(cur, |kept|) == kept + ns[k + 1..]
            && kept + [ns[k]] + ns[k + 1..] == cur
            && Keepers(ns[..k + 1]) == Keepers(ns[..k]) + (if ns[k].kind == Normal then [] else [ns[k]])
            && TopicAt(ns, k + 1) == (if k + 1 < |ns| then ns[k + 1] else null)
  {
    assert ns[..k + 1][..k] == ns[..k];
    assert ns[k..] == [ns[k]] + ns[k + 1..];
  }

  // ks are the topics at the increasing positions js of ns, which are those of the topics that are
  // not normal.
  ghost predicate KeptAt(ns: seq<Topic>, js: seq<nat>, ks: seq<Topic>) {
    && |js| == |ks| && (forall a, b :: 0 <= a < b < |js| ==> js[a] < js[b])
    && (forall k :: 0 <= k < |js| ==> js[k] < |ns| && ks[k] == ns[js[k]] && ns[js[k]].kind != Normal)
    && forall i :: 0 <= i < |ns| && ns[i].kind != Normal ==> i in js
  }

  lemma {:induction false} KeepersInOrder(ns: seq<Topic>) returns (js: seq<nat>)
    ensures KeptAt(ns, js, Keepers(ns))
  {
    js := [];
    if ns != [] {
      var n := |ns| - 1;
      js := KeepersInOrder(ns[..n]);
      var js0 := js;
      if ns[n].kind != Normal {
        js := js + [n];
      }
      forall i | 0 <= i < |ns| && ns[i].kind != Normal ensures i in js {
        if i < n {
          assert ns[..n][i] == ns[i] && i in js0;
        } else {
          assert js[|js0|] == n;
        }
      }
    }
  }

  lemma {:induction false} KeepersKept(ns: seq<Topic>)
    ensures forall i :: 0 <= i < |Keepers(ns)| ==> Keepers(ns)[i].kind != Normal && Keepers(ns)[i] in ns
    ensures |Keepers(ns)| <= |ns|
    ensures NamesDistinct(ns) ==> NamesDistinct(Keepers(ns))
  {
    if ns != [] {
      var m := ns[..|ns| - 1];
      KeepersKept(m);
      forall i | 0 <= i < |Keepers(m)| && NamesDistinct(ns) ensures Keepers(m)[i].name != ns[|ns| - 1].name {
        var j :| 0 <= j < |m| && m[j] == Keepers(m)[i];
        assert ns[j] == m[j];
      }
    }
  }

  lemma KeepersNumbered(ns: seq<Topic>, allocs: nat)
    requires forall i :: 0 <= i < |ns| ==> ns[i].kind != Normal
    ensures Numbered(ns, allocs, allocs)
  {
  }

  lemma Appended(ns: seq<Topic>, t: Topic)
    ensures forall j :: j < |ns| ==> TopicAt(ns + [t], j) == TopicAt(ns, j)
  {
  }

  lemma NumberedMore(ns: seq<Topic>, since: nat, allocs: nat, t: Topic, allocs': nat)
    requires Numbered(ns, since, allocs) && since <= allocs <= allocs'
    requires t.kind == Normal ==> allocs < t.serial == allocs' && t.id == IdOf(allocs')
    ensures Numbered(ns + [t], since, allocs')
  {
  }

  // Live normal topics have different identifiers, all in 1..65534.
  lemma NormalIdsDistinct(ns: seq<Topic>, since: nat, allocs: nat, a: Topic, b: Topic)
    requires Numbered(ns, since, allocs) && allocs <= since + MAX_TOPICS
    requires a in ns && b in ns && a.kind == Normal && b.kind == Normal
    ensures 1 <= a.id <= 65534
    ensures a.id == b.id ==> a == b
  {
    var i :| 0 <= i < |ns| && ns[i] == a;
    var j :| 0 <= j < |ns| && ns[j] == b;
    if i < j {
      SameId(a.serial, b.serial);
    } else if j < i {
      SameId(b.serial, a.serial);
    }
  }

  // ---------- whole runs ----------

  datatype Op = AddNormal(name: string) | AddPredefined(name: string, id: nat) | EraseAll

  datatype Entry = Entry(kind: Kind, name: string, id: nat)

  // The topics as values, and how many identifiers were given out.
  datatype Listing = Listing(entries: seq<Entry>, allocs: nat)

  predicate Lists(es: seq<Entry>, name: string) { exists i :: 0 <= i < |es| && es[i].name == name }

  function Enter(l: Listing, name: string, id: nat): Listing {
    if |l.entries| >= MAX_TOPICS || Lists(l.entries, name) then l
    else if id == 0 then Listing(l.entries + [Entry(Normal, name, IdOf(l.allocs + 1))], l.allocs + 1)
    else Listing(l.entries + [Entry(Predefined, name, id)], l.allocs)
  }

  function Others(es: seq<Entry>): seq<Entry> {
    if es == [] then []
    else Others(es[..|es| - 1]) + if es[|es| - 1].kind == Normal then [] else [es[|es| - 1]]
  }

  function Apply(l: Listing, op: Op): Listing {
    match op
    case AddNormal(name) => if Lists(l.entries, name) then l else Enter(l, CStr(name), 0)
    case AddPredefined(name, id) => Enter(l, name, id)
    case EraseAll => Listing(Others(l.entries), l.allocs)
  }

  function Replay(ops: seq<Op>): Listing {
    if ops == [] then Listing([], 0) else Apply(Replay(ops[..|ops| - 1]), ops[|ops| - 1])
  }

  function EntryOf(t: Topic): Entry { Entry(t.kind, t.name, t.id) }

  function View(ns: seq<Topic>): (es: seq<Entry>)
    ensures |es| == |ns| && forall i :: 0 <= i < |ns| ==> es[i] == EntryOf(ns[i])
  {
    seq(|ns|, i requires 0 <= i < |ns| => EntryOf(ns[i]))
  }

  lemma ViewSnoc(ns: seq<Topic>, t: Topic)
    ensures View(ns + [t]) == View(ns) + [EntryOf(t)]
  {
  }

  lemma ViewKnows(ns: seq<Topic>, name: string)
    ensures Known(ns, name) <==> Lists(View(ns), name)
  {
    if Lists(View(ns), name) {
      var i :| 0 <= i < |ns| && View(ns)[i].name == name;
      assert ns[i].name == name;
    }
    if Known(ns, name) {
      var i :| 0 <= i < |ns| && ns[i].name == name;
      assert View(ns)[i].name == name;
    }
  }

  lemma {:induction false} ViewKeepers(ns: seq<Topic>)
    ensures View(Keepers(ns)) == Others(View(ns))
  {
    if ns != [] {
      var m := ns[..|ns| - 1];
      ViewKeepers(m);
      assert View(ns)[..|ns| - 1] == View(m);
      if ns[|ns| - 1].kind != Normal {
        ViewSnoc(Keepers(m), ns[|ns| - 1]);
      }
    }
  }

  // One operation on the linked list does to its view what it does to the listing.
  method Perform(t: Topics, op: Op)
    requires t.Valid()
    modifies t, t.nodes
    ensures t.Valid() && forall n :: n in t.nodes ==> n in old(t.nodes) || fresh(n)
    ensures Listing(View(t.nodes), t.allocs) == Apply(old(Listing(View(t.nodes), t.allocs)), op)
  {
    hide Topics.Valid, View, Known, Lists;
    ghost var ns, a := t.nodes, t.allocs;
    assert |ns| == |View(ns)|;
    match op {
      case AddNormal(name) =>
        ViewKnows(ns, name);
        ViewKnows(ns, CStr(name));
        var p := t.Add(Normal, name);
        if p != null {
          ViewSnoc(ns, p);
        }
      case AddPredefined(name, id) =>
        ViewKnows(ns, name);
        var p := t.AddName(name, id);
        if p != null {
          ViewSnoc(ns, p);
        }
      case EraseAll =>
        ViewKeepers(ns);
        KeepersKept(ns);
        t.EraseNormal();
    }
  }

  // Any sequence of registrations and erasures, the counter's wraparound included: the linked
  // list is the one that the sequence describes.
  method RunTopics(ops: seq<Op>) returns (t: Topics)
    ensures t.Valid() && View(t.nodes) == Replay(ops).entries && t.allocs == Replay(ops).allocs
    ensures t.cnt == |t.nodes| <= MAX_TOPICS && NamesDistinct(t.nodes)
    ensures forall a, b :: a in t.nodes && b in t.nodes && a.kind == Normal && b.kind == Normal ==>
              1 <= a.id <= 65534 && (a.id == b.id ==> a == b)
  {
    hide Chain, Numbered, Apply;
    t := new Topics();
    for i := 0 to |ops|
      invariant t.Valid() && fresh(t) && fresh(t.nodes)
      invariant Listing(View(t.nodes), t.allocs) == Replay(ops[..i])
    {
      Perform(t, ops[i]);
      assert ops[..i + 1][..i] == ops[..i];
      forall k | 0 <= k < |t.nodes| ensures fresh(t.nodes[k]) {
        assert t.nodes[k] in t.nodes;
      }
    }
    assert ops[..|ops|] == ops;
    forall a, b | a in t.nodes && b in t.nodes && a.kind == Normal && b.kind == Normal
      ensures 1 <= a.id <= 65534 && (a.id == b.id ==> a == b)
    {
      NormalIdsDistinct(t.nodes, t.since, t.allocs, a, b);
    }
  }
}
