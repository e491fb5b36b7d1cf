/**
Message-id translation for aggregated clients: MessageIdTable (MQTTSNGWMessageIdTable.cpp) as used by
Aggregater (MQTTSNGWAggregater.cpp), with the packet-id counter of the shared broker connection.
*/
module MessageIdTable {
  import opened Basics
  import opened IdCycle
  import opened LinkedLists

  const MAX_SIZE := 500

  // client stands for the client object.
  datatype Pair = Pair(client: nat, clientMsgId: nat)

  type Entry = Keyed<Pair>

  predicate HasPair(e: Entry, p: Pair) { e.value == p }

  function PairPosition(s: seq<Entry>, p: Pair): (i: nat)
    ensures i <= |s| && (i < |s| ==> HasPair(s[i], p)) && forall j :: 0 <= j < i ==> !HasPair(s[j], p)
  {
    FirstIndex(s, (e: Entry) => HasPair(e, p))
  }

  ghost predicate PairsDistinct(s: seq<Entry>) {
    forall i, j :: 0 <= i < j < |s| ==> s[i].value != s[j].value
  }

  // Entry i got its identifier from allocation serials[i].
  ghost predicate Allocated(s: seq<Entry>, serials: seq<nat>, allocs: nat) {
    && |s| == |serials|
    && (forall i :: 0 <= i < |s| ==> 0 < serials[i] <= allocs && s[i].msgId == IdOf(serials[i]))
    && (forall i, j :: 0 <= i < j < |s| ==> serials[i] < serials[j])
  }

  // No entry has outlived 65533 later allocations.
  ghost predicate Recent(serials: seq<nat>, allocs: nat) {
    forall i :: 0 <= i < |serials| ==> allocs - serials[i] <= CYCLE - 1
  }

  class Table {
    const list: DoublyLinked<Entry>
    var cnt: nat
    var packetId: nat           // the shared client's counter
    ghost var serials: seq<nat>
    ghost var allocs: nat

    ghost predicate Valid()
      reads this, list, list.nodes
    {
      list.Valid() && Counted() && Identified() && PairsDistinct(list.Values())
    }

    ghost predicate Counted()
      reads this, list
    {
      cnt == |list.Values()| <= MAX_SIZE + 1
    }

    ghost predicate Identified()
      reads this, list
    {
      Allocated(list.Values(), serials, allocs) && packetId == IdOf(allocs)
    }

    ghost function View(): Ledger
      reads this, list
    {
      Ledger(list.Values(), serials, allocs)
    }

    constructor ()
      ensures Valid() && fresh(list) && list.nodes == [] && View() == Ledger([], [], 0)
    {
      list := new DoublyLinked<Entry>();
      cnt, packetId, serials, allocs := 0, 0, [], 0;
    }

    // Aggregater::msgId; other users of the connection draw on the same counter.
    method NextMsgId() returns (id: nat)
      requires packetId == IdOf(allocs)
      modifies this`packetId, this`allocs
      ensures packetId == IdOf(allocs) && allocs == old(allocs) + 1 && id == packetId
    {
      CounterSteps(allocs);
      packetId := NextPacketId(packetId);
      allocs := allocs + 1;
      id := packetId;
    }

    method OtherAllocation()
      requires Valid()
      modifies this`packetId, this`allocs
      ensures Valid() && View() == Step(old(View()), Other)
    {
      hide IdOf, HasPair, PairsDistinct, DoublyLinked.Valid, Allocated;
      AllocatedLater(list.Values(), serials, allocs);
      var _ := NextMsgId();
    }

    // The new identifier, or None for a full table or a pair that is waiting already.
    method Add(p: Pair) returns (msgId: Option<nat>)
      requires Valid()
      modifies this, list, list.nodes
      ensures Valid() && forall n :: n in list.nodes ==> n in old(list.nodes) || fresh(n)
      ensures msgId.None? <==>
              || old(|list.Values()|) > 500
              || exists i :: 0 <= i < old(|list.Values()|) && old(list.Values())[i].value == p
      ensures list.Values() == old(list.Values()) + if msgId.Some? then [Keyed(msgId.value, p)] else []
      ensures View() == Enter(old(View()), p)
      ensures Registered(msgId) == AnswerTo(old(View()), Register(p))
    {
      hide IdOf, HasPair, PairsDistinct, DoublyLinked.Valid, Allocated, Enter, Admits, AnswerTo;
      ghost var l := View();
      EnterCases(l, p);
      PairWaits(l.entries, p);
      if cnt > MAX_SIZE {
        return None;
      }
      var link := list.Find((e: Entry) => HasPair(e, p));
      if link != null {
        return None;
      }
      var id := NextMsgId();
      var _ := list.Append(Keyed(id, p));
      cnt := cnt + 1;
      serials := serials + [allocs];
      assert View() == Enter(l, p);
      msgId := Some(id);
    }

    // Aggregater::convertClient: the pair waiting under msgId, which is then taken out.
    method GetClientMsgId(msgId: nat) returns (pair: Option<Pair>)
      requires Valid()
      modifies this, list, list.nodes
      ensures Valid() && forall n :: n in list.nodes ==> n in old(list.nodes)
      ensures var vs := old(list.Values());
              if forall i :: 0 <= i < |vs| ==> vs[i].msgId != msgId then pair == None && list.Values() == vs
              else
                exists i :: 0 <= i < |vs| && FirstWith(vs, i, msgId)
                            && pair == Some(vs[i].value) && list.Values() == vs[..i] + vs[i + 1..]
      ensures View() == Convert(old(View()), msgId)
      ensures Converted(pair) == AnswerTo(old(View()), Acknowledge(msgId))
    {
      hide IdOf, HasPair, DoublyLinked.Valid, Without, PairsDistinct, Allocated;
      ghost var vs := list.Values();
      ghost var i := Position(vs, msgId);
      FirstIsPosition(vs, msgId);
      var p := list.Find((e: Entry) => HasMsgId(e, msgId));
      if p == null {
        return None;
      }
      WithoutKeeps(vs, serials, allocs, i);
      pair := Some(p.value.value);
      list.Unlink(p, i);
      WithoutAt(old(list.nodes), i);
      cnt := cnt - 1;
      serials := Without(serials, i);
    }

    method GetMsgId(p: Pair) returns (msgId: nat)
      requires Valid()
      ensures var i := PairPosition(list.Values(), p);
              msgId == if i < |list.Values()| then list.Values()[i].msgId else 0
    {
      var link := list.Find((e: Entry) => HasPair(e, p));
      msgId := if link != null then link.value.msgId else 0;
    }
  }

  lemma AllocatedMore(s: seq<Entry>, serials: seq<nat>, allocs: nat, e: Entry)
    requires Allocated(s, serials, allocs) && e.msgId == IdOf(allocs + 1)
    ensures Allocated(s + [e], serials + [allocs + 1], allocs + 1)
  {
  }

  lemma AllocatedLater(s: seq<Entry>, serials: seq<nat>, allocs: nat)
    requires Allocated(s, serials, allocs)
    ensures Allocated(s, serials, allocs + 1)
  {
  }

  predicate FirstWith(s: seq<Entry>, i: nat, msgId: nat)
    requires i < |s|
  {
    s[i].msgId == msgId && forall j :: 0 <= j < i ==> s[j].msgId != msgId
  }

  lemma FirstIsPosition(s: seq<Entry>, msgId: nat)
    ensures var i := Position(s, msgId);
            if i < |s| then FirstWith(s, i, msgId) && Without(s, i) == s[..i] + s[i + 1..]
            else forall j :: 0 <= j < |s| ==> s[j].msgId != msgId
  {
  }

  lemma PairWaits(s: seq<Entry>, p: Pair)
    ensures PairPosition(s, p) < |s| <==> exists i :: 0 <= i < |s| && s[i].value == p
  {
    if PairPosition(s, p) == |s| {
      forall i | 0 <= i < |s| ensures s[i].value != p {
        assert !HasPair(s[i], p);
      }
    }
  }

  lemma PairsMore(s: seq<Entry>, e: Entry)
    requires PairsDistinct(s) && PairPosition(s, e.value) == |s|
    ensures PairsDistinct(s + [e])
  {
  }

  lemma WithoutKeeps(s: seq<Entry>, serials: seq<nat>, allocs: nat, i: nat)
    requires PairsDistinct(s) && Allocated(s, serials, allocs) && i < |s|
    ensures i < |serials| && |Without(s, i)| == |s| - 1
    ensures PairsDistinct(Without(s, i)) && Allocated(Without(s, i), Without(serials, i), allocs)
  {
    WithoutAt(s, i);
    WithoutAt(serials, i);
  }

  // ---------- translation is one to one ----------

  // Identifiers are distinct exactly as long as no two entries are a whole number of cycles apart;
  // in particular while every entry is recent.
  lemma RecentDistinct(s: seq<Entry>, serials: seq<nat>, allocs: nat, i: nat, j: nat)
    requires Allocated(s, serials, allocs) && Recent(serials, allocs) && i < j < |s|
    ensures s[i].msgId != s[j].msgId
  {
    SameId(serials[i], serials[j]);
  }

  lemma CollideExactly(s: seq<Entry>, serials: seq<nat>, allocs: nat, i: nat, j: nat)
    requires Allocated(s, serials, allocs) && i < j < |s|
    ensures s[i].msgId == s[j].msgId <==> (serials[j] - serials[i]) % CYCLE == 0
  {
    SameId(serials[i], serials[j]);
  }

  // Each waiting identifier converts back to its own pair, and only once.
  lemma ConvertsOnce(s: seq<Entry>, serials: seq<nat>, allocs: nat, i: nat)
    requires Allocated(s, serials, allocs) && Recent(serials, allocs) && i < |s|
    ensures Position(s, s[i].msgId) == i
    ensures Position(Without(s, i), s[i].msgId) == |s| - 1
  {
    var id := s[i].msgId;
    forall j | 0 <= j < |s| && j != i ensures s[j].msgId != id {
      if j < i {
        RecentDistinct(s, serials, allocs, j, i);
      } else {
        RecentDistinct(s, serials, allocs, i, j);
      }
    }
    WithoutAt(s, i);
  }

  // A waiting identifier converts back to its own pair exactly when no older entry is a whole
  // number of cycles older.
  lemma ConvertsExactly(s: seq<Entry>, serials: seq<nat>, allocs: nat, i: nat)
    requires Allocated(s, serials, allocs) && i < |s|
    ensures Position(s, s[i].msgId) == i <==> forall j :: 0 <= j < i ==> (serials[i] - serials[j]) % CYCLE != 0
  {
    hide IdOf;
    forall j | 0 <= j < i ensures s[j].msgId == s[i].msgId <==> (serials[i] - serials[j]) % CYCLE == 0 {
      CollideExactly(s, serials, allocs, j, i);
    }
  }

  // ---------- whole runs ----------

  datatype Op = Register(pair: Pair) | Acknowledge(msgId: nat) | Other

  datatype Answer = Registered(msgId: Option<nat>) | Converted(pair: Option<Pair>) | Nothing

  // The table as values: entry i got its identifier from allocation serials[i].
  datatype Ledger = Ledger(entries: seq<Entry>, serials: seq<nat>, allocs: nat)

  predicate Admits(l: Ledger, p: Pair) { |l.entries| <= MAX_SIZE && PairPosition(l.entries, p) == |l.entries| }

  function Enter(l: Ledger, p: Pair): Ledger {
    if !Admits(l, p) then l
    else Ledger(l.entries + [Keyed(IdOf(l.allocs + 1), p)], l.serials + [l.allocs + 1], l.allocs + 1)
  }

  function Convert(l: Ledger, msgId: nat): Ledger {
    var i := Position(l.entries, msgId);
    if i < |l.entries| && i < |l.serials| then Ledger(Without(l.entries, i), Without(l.serials, i), l.allocs) else l
  }

  function Step(l: Ledger, op: Op): Ledger {
    match op
    case Register(p) => Enter(l, p)
    case Acknowledge(id) => Convert(l, id)
    case Other => Ledger(l.entries, l.serials, l.allocs + 1)
  }

  // The new identifier, or None for a full table or a pair that is waiting already; the pair
  // waiting under an identifier.
  function AnswerTo(l: Ledger, op: Op): Answer {
    match op
    case Register(p) => Registered(if Admits(l, p) then Some(IdOf(l.allocs + 1)) else None)
    case Acknowledge(id) =>
      var i := Position(l.entries, id);
      Converted(if i < |l.entries| then Some(l.entries[i].value) else None)
    case Other => Nothing
  }

  function Replay(ops: seq<Op>): Ledger {
    if ops == [] then Ledger([], [], 0) else Step(Replay(ops[..|ops| - 1]), ops[|ops| - 1])
  }

  lemma ReplaySnoc(ops: seq<Op>, i: nat)
    requires i < |ops|
    ensures Replay(ops[..i + 1]) == Step(Replay(ops[..i]), ops[i])
  {
    assert ops[..i + 1][..i] == ops[..i];
  }

  ghost predicate Sound(l: Ledger) {
    Allocated(l.entries, l.serials, l.allocs) && PairsDistinct(l.entries) && |l.entries| <= MAX_SIZE + 1
  }

  lemma StepSound(l: Ledger, op: Op)
    requires Sound(l)
    ensures Sound(Step(l, op)) && Step(l, op).allocs >= l.allocs
  {
    hide IdOf, PairsDistinct, Allocated;
    match op {
      case Register(p) =>
        if Admits(l, p) {
          var e := Keyed(IdOf(l.allocs + 1), p);
          AllocatedMore(l.entries, l.serials, l.allocs, e);
          PairsMore(l.entries, e);
        }
      case Acknowledge(id) =>
        var i := Position(l.entries, id);
        if i < |l.entries| {
          WithoutKeeps(l.entries, l.serials, l.allocs, i);
        }
      case Other => AllocatedLater(l.entries, l.serials, l.allocs);
    }
  }

  lemma EnterCases(l: Ledger, p: Pair)
    requires Sound(l)
    ensures Sound(Enter(l, p))
    ensures (Admits(l, p) <==> |l.entries| <= MAX_SIZE && PairPosition(l.entries, p) == |l.entries|)
    ensures Admits(l, p) ==>
              Enter(l, p)
              == Ledger(l.entries + [Keyed(IdOf(l.allocs + 1), p)], l.serials + [l.allocs + 1], l.allocs + 1)
    ensures !Admits(l, p) ==> Enter(l, p) == l
    ensures AnswerTo(l, Register(p)) == Registered(if Admits(l, p) then Some(IdOf(l.allocs + 1)) else None)
  {
    hide IdOf, PairsDistinct, Allocated;
    StepSound(l, Register(p));
  }

  lemma {:induction false} ReplaySound(ops: seq<Op>)
    ensures Sound(Replay(ops))
  {
    hide Step, Allocated;
    if ops != [] {
      ReplaySound(ops[..|ops| - 1]);
      StepSound(Replay(ops[..|ops| - 1]), ops[|ops| - 1]);
    } else {
      NothingAllocated();
    }
  }

  lemma NothingAllocated()
    ensures Allocated([], [], 0)
  {
  }

  // The entry of allocation serial is in the table.
  ghost predicate Waits(l: Ledger, e: Entry, serial: nat) {
    |l.entries| == |l.serials| && exists x :: 0 <= x < |l.entries| && l.entries[x] == e && l.serials[x] == serial
  }

  lemma StepWaits(l: Ledger, op: Op, e: Entry, serial: nat)
    requires Waits(l, e, serial) && op != Acknowledge(e.msgId)
    ensures Waits(Step(l, op), e, serial)
  {
    hide IdOf, PairPosition, Position;
    var x :| 0 <= x < |l.entries| && l.entries[x] == e && l.serials[x] == serial;
    var l' := Step(l, op);
    match op {
      case Register(p) => assert l'.entries[x] == e && l'.serials[x] == serial;
      case Acknowledge(id) =>
        var i := Position(l.entries, id);
        if i < |l.entries| {
          WithoutAt(l.entries, i);
          WithoutAt(l.serials, i);
          var y := if x < i then x else x - 1;
          assert l'.entries[y] == e && l'.serials[y] == serial;
        }
      case Other => assert l'.entries[x] == e && l'.serials[x] == serial;
    }
  }

  // An entry waits until its identifier is acknowledged.
  lemma {:induction false} StaysWaiting(ops: seq<Op>, from: nat, to: nat, e: Entry, serial: nat)
    requires from <= to <= |ops| && Waits(Replay(ops[..from]), e, serial)
    requires forall k :: from <= k < to ==> ops[k] != Acknowledge(e.msgId)
    ensures Waits(Replay(ops[..to]), e, serial)
  {
    hide Step, Waits;
    if from < to {
      StaysWaiting(ops, from, to - 1, e, serial);
      ReplaySnoc(ops, to - 1);
      StepWaits(Replay(ops[..to - 1]), ops[to - 1], e, serial);
    }
  }

  // The identifier that a registration at step i returned, acknowledged at step j for the first
  // time since, gives back the pair registered; acknowledged again at any later step k it gives
  // nothing until a registration returns it anew. This holds as long as no entry in the table at
  // step j has outlived 65533 later allocations.
  lemma TranslatesOnce(ops: seq<Op>, i: nat, j: nat, k: nat, p: Pair, id: nat)
    requires i < j < |ops| && ops[i] == Register(p) && AnswerTo(Replay(ops[..i]), ops[i]) == Registered(Some(id))
    requires ops[j] == Acknowledge(id) && forall m :: i < m < j ==> ops[m] != Acknowledge(id)
    requires j < k <= |ops| && forall m :: j < m < k ==> AnswerTo(Replay(ops[..m]), ops[m]) != Registered(Some(id))
    requires Recent(Replay(ops[..j]).serials, Replay(ops[..j]).allocs)
    ensures AnswerTo(Replay(ops[..j]), ops[j]) == Converted(Some(p))
    ensures AnswerTo(Replay(ops[..k]), Acknowledge(id)) == Converted(None)
  {
    hide IdOf, Replay, Recent, Sound, Waits, Enter, Convert, Admits, Free;
    var l := Replay(ops[..i]);
    ReplaySnoc(ops, i);
    ReplaySound(ops[..i]);
    NewWaits(l, p);
    StaysWaiting(ops, i + 1, j, Keyed(id, p), l.allocs + 1);
    ReplaySound(ops[..j]);
    WaitingConverts(Replay(ops[..j]), Keyed(id, p), l.allocs + 1);
    ReplaySnoc(ops, j);
    StaysFree(ops, j + 1, k, id);
    FreeAnswer(Replay(ops[..k]), id);
  }

  // A waiting entry among recent ones is the one converted, and its identifier is free then.
  lemma WaitingConverts(l: Ledger, e: Entry, serial: nat)
    requires Sound(l) && Waits(l, e, serial) && Recent(l.serials, l.allocs)
    ensures AnswerTo(l, Acknowledge(e.msgId)) == Converted(Some(e.value)) && Free(Convert(l, e.msgId), e.msgId)
  {
    hide IdOf, Allocated, Recent, PairsDistinct;
    var x :| 0 <= x < |l.entries| && l.entries[x] == e && l.serials[x] == serial;
    ConvertsOnce(l.entries, l.serials, l.allocs, x);
  }

  lemma FreeAnswer(l: Ledger, id: nat)
    requires Free(l, id)
    ensures AnswerTo(l, Acknowledge(id)) == Converted(None)
  {
  }

  predicate Free(l: Ledger, id: nat) { Position(l.entries, id) == |l.entries| }

  lemma StepFree(l: Ledger, op: Op, id: nat)
    requires Free(l, id) && AnswerTo(l, op) != Registered(Some(id))
    ensures Free(Step(l, op), id)
  {
    hide IdOf, Admits;
    if op.Acknowledge? {
      var i := Position(l.entries, op.msgId);
      if i < |l.entries| {
        WithoutAt(l.entries, i);
      }
    }
  }

  lemma {:induction false} StaysFree(ops: seq<Op>, from: nat, to: nat, id: nat)
    requires from <= to <= |ops| && Free(Replay(ops[..from]), id)
    requires forall m :: from <= m < to ==> AnswerTo(Replay(ops[..m]), ops[m]) != Registered(Some(id))
    ensures Free(Replay(ops[..to]), id)
  {
    hide Step, Free, AnswerTo;
    if from < to {
      StaysFree(ops, from, to - 1, id);
      ReplaySnoc(ops, to - 1);
      StepFree(Replay(ops[..to - 1]), ops[to - 1], id);
    }
  }

  lemma NewWaits(l: Ledger, p: Pair)
    requires Sound(l) && Admits(l, p)
    ensures Waits(Enter(l, p), Keyed(IdOf(l.allocs + 1), p), l.allocs + 1)
  {
    hide IdOf, Admits;
    var l' := Enter(l, p);
    assert l'.entries[|l.entries|] == Keyed(IdOf(l.allocs + 1), p) && l'.serials[|l.entries|] == l.allocs + 1;
  }

  // A registration, a whole cycle of other allocations but one, and another registration.
  function StaleRun(): seq<Op> {
    [Register(Pair(7, 3))] + seq(CYCLE - 1, _ => Other) + [Register(Pair(8, 4))]
  }

  lemma {:induction false} OthersOnly(ops: seq<Op>, n: nat)
    requires n < |ops| && ops[0] == Register(Pair(7, 3)) && forall k :: 1 <= k <= n ==> ops[k] == Other
    ensures Replay(ops[..n + 1]) == Ledger([Keyed(1, Pair(7, 3))], [1], n + 1)
  {
    hide PairPosition;
    ReplaySnoc(ops, n);
    if n == 0 {
      assert ops[..0] == [];
      assert IdOf(1) == 1;
    } else {
      OthersOnly(ops, n - 1);
    }
  }

  // After that run both registrations wait under identifier 1, and the acknowledgement for the
  // second goes to the first, which has waited a whole cycle.
  lemma StaleEntryCaptures()
    ensures var ops := StaleRun();
            && AnswerTo(Replay(ops[..CYCLE]), ops[CYCLE]) == Registered(Some(1))
            && !Recent(Replay(ops).serials, Replay(ops).allocs)
            && AnswerTo(Replay(ops), Acknowledge(1)) == Converted(Some(Pair(7, 3)))
  {
    hide Recent, Replay, StaleRun, PairPosition, Position;
    var ops := StaleRun();
    StaleShape();
    OthersOnly(ops, CYCLE - 1);
    ReplaySnoc(ops, CYCLE);
    assert ops[..CYCLE + 1] == ops;
    var l := Replay(ops[..CYCLE]);
    assert IdOf(CYCLE + 1) == 1;
    assert PairPosition(l.entries, Pair(8, 4)) == 1;
    var m := Replay(ops);
    assert m == Ledger(l.entries + [Keyed(1, Pair(8, 4))], l.serials + [CYCLE + 1], CYCLE + 1);
    assert m.serials[0] == 1 && m.entries[0] == Keyed(1, Pair(7, 3));
    assert Position(m.entries, 1) == 0;
    NotRecent(m.serials, m.allocs);
  }

  lemma StaleShape()
    ensures var ops := StaleRun();
            && |ops| == CYCLE + 1 && ops[0] == Register(Pair(7, 3)) && ops[CYCLE] == Register(Pair(8, 4))
            && forall k :: 1 <= k <= CYCLE - 1 ==> ops[k] == Other
  {
  }

  lemma NotRecent(serials: seq<nat>, allocs: nat)
    requires serials != [] && allocs - serials[0] > CYCLE - 1
    ensures !Recent(serials, allocs)
  {
  }

  // Any sequence of registrations, acknowledgements and foreign allocations: the linked table is
  // the ledger of the sequence, and every operation answers as the ledger says.
  method RunTable(ops: seq<Op>) returns (t: Table, answers: seq<Answer>)
    ensures t.Valid() && t.View() == Replay(ops)
    ensures |answers| == |ops| && forall i :: 0 <= i < |ops| ==> answers[i] == AnswerTo(Replay(ops[..i]), ops[i])
  {
    hide DoublyLinked.Valid, PairsDistinct, Allocated, IdOf, Enter, Convert, AnswerTo;
    t := new Table();
    answers := [];
    for i := 0 to |ops|
      invariant t.Valid() && fresh(t) && fresh(t.list) && fresh(t.list.nodes) && t.View() == Replay(ops[..i])
      invariant |answers| == i && forall j :: 0 <= j < i ==> answers[j] == AnswerTo(Replay(ops[..j]), ops[j])
    {
      ReplaySnoc(ops, i);
      var answer := Perform(t, ops[i]);
      answers := answers + [answer];
      forall k | 0 <= k < |t.list.nodes| ensures fresh(t.list.nodes[k]) {
        assert t.list.nodes[k] in t.list.nodes;
      }
    }
    assert ops[..|ops|] == ops;
  }

  method Perform(t: Table, op: Op) returns (answer: Answer)
    requires t.Valid()
    modifies t, t.list, t.list.nodes
    ensures t.Valid() && t.View() == Step(old(t.View()), op) && answer == AnswerTo(old(t.View()), op)
    ensures forall n :: n in t.list.nodes ==> n in old(t.list.nodes) || fresh(n)
  {
    hide DoublyLinked.Valid, PairsDistinct, Allocated, IdOf, Enter, Convert, Admits;
    match op {
      case Register(p) =>
        var id := t.Add(p);
        answer := Registered(id);
      case Acknowledge(id) =>
        var pair := t.GetClientMsgId(id);
        answer := Converted(pair);
      case Other =>
        t.OtherAllocation();
        answer := Nothing;
    }
  }
}
