/**
The linked lists of the gateway, with their nodes in the heap: the singly followed queue Que of
MQTTSNGWProcess.h, and the doubly linked list that MessageIdTable and TopicIdMap are built on.
*/
module LinkedLists {
  import opened Basics

  // Position of the first element with property p, |s| when there is none.
  function FirstIndex<T>(s: seq<T>, p: T -> bool): (i: nat)
    ensures i <= |s|
    ensures i < |s| ==> p(s[i])
    ensures forall j :: 0 <= j < i ==> !p(s[j])
  {
    if s == [] then 0
    else if p(s[0]) then 0
    else
      var i := FirstIndex(s[1..], p) + 1;
      assert forall j :: 1 <= j < i ==> s[j] == s[1..][j - 1];
      i
  }

  // An element of a list that is searched by message id.
  datatype Keyed<+T> = Keyed(msgId: nat, value: T)

  predicate HasMsgId<T>(e: Keyed<T>, msgId: nat) { e.msgId == msgId }

  function Position<T>(s: seq<Keyed<T>>, msgId: nat): (i: nat)
    ensures i <= |s| && (i < |s| ==> s[i].msgId == msgId) && forall j :: 0 <= j < i ==> s[j].msgId != msgId
  {
    FirstIndex(s, (e: Keyed<T>) => HasMsgId(e, msgId))
  }

  // ---------- the bounded queue ----------

  class QueElement<T> {
    const element: T
    var next: QueElement?<T>
    var prev: QueElement?<T>

    constructor (t: T)
      ensures element == t && next == null && prev == null
    {
      element, next, prev := t, null, null;
    }
  }

  // The node at position i, null outside the sequence.
  ghost function ElementAt<T>(ns: seq<QueElement<T>>, i: int): QueElement?<T> { if 0 <= i < |ns| then ns[i] else null }

  lemma ElementAtIs<T>(ns: seq<QueElement<T>>, i: int)
    ensures ElementAt(ns, i) == if 0 <= i < |ns| then ns[i] else null
  {
  }

  lemma ElementsAppended<T>(ns: seq<QueElement<T>>, elm: QueElement<T>)
    ensures forall j :: j < |ns| ==> ElementAt(ns + [elm], j) == ElementAt(ns, j)
  {
  }

  ghost function ElementsOf<T>(ns: seq<QueElement<T>>): (s: seq<T>)
    ensures |s| == |ns| && forall i :: 0 <= i < |ns| ==> s[i] == ns[i].element
  {
    seq(|ns|, i requires 0 <= i < |ns| => ns[i].element)
  }

  // prev is written but never followed; after pop it may point to a node that is gone.
  class Que<T> {
    var head: QueElement?<T>
    var tail: QueElement?<T>
    var cnt: nat
    var maxSize: nat
    ghost var nodes: seq<QueElement<T>>

    ghost predicate Valid()
      reads this, nodes
    {
      && cnt == |nodes|
      && (if nodes == [] then head == null && tail == null else head == nodes[0] && tail == nodes[|nodes| - 1])
      && (forall i :: 0 <= i < |nodes| ==> nodes[i].next == ElementAt(nodes, i + 1))
      && (forall i, j :: 0 <= i < j < |nodes| ==> nodes[i] != nodes[j])
    }

    ghost function Contents(): (s: seq<T>)
      reads this
    {
      ElementsOf(nodes)
    }

    constructor (size: nat)
      ensures Valid() && Contents() == [] && maxSize == size && nodes == []
    {
      head, tail, cnt, maxSize, nodes := null, null, 0, size, [];
    }

    method Front() returns (t: Option<T>)
      requires Valid()
      ensures t == if Contents() == [] then None else Some(Contents()[0])
    {
      t := if head != null then Some(head.element) else None;
    }

    // 0 and no change when there is nothing to store or the queue is full; a bound of 0 is none.
    method Post(t: Option<T>) returns (rc: nat)
      requires Valid()
      modifies this, nodes
      ensures Valid() && maxSize == old(maxSize) && fresh(set n | n in nodes && n !in old(nodes))
      ensures rc > 0 <==> t.Some? && (maxSize == 0 || old(|Contents()|) < maxSize)
      ensures Contents() == if rc > 0 then old(Contents()) + [t.value] else old(Contents())
      ensures rc > 0 ==> rc == |Contents()|
    {
      hide ElementAt;
      rc := 0;
      if t.Some? && (maxSize == 0 || cnt < maxSize) {
        ghost var ns := nodes;
        var elm := new QueElement(t.value);
        if head != null {
          if tail == head {
            elm.prev := tail;
            tail := elm;
            head.next := elm;
          } else {
            tail.next := elm;
            elm.prev := tail;
            tail := elm;
          }
        } else {
          head, tail := elm, elm;
        }
        nodes := nodes + [elm];
        ElementsAppended(ns, elm);
        ElementAtIs(nodes, |ns|);
        ElementAtIs(nodes, |ns| + 1);
        cnt := cnt + 1;
        rc := cnt;
      }
    }

    method Pop()
      requires Valid()
      modifies this, nodes
      ensures Valid() && maxSize == old(maxSize)
      ensures Contents() == if old(Contents()) == [] then [] else old(Contents())[1..]
      ensures forall n :: n in nodes ==> n in old(nodes)
    {
      if head != null {
        var first := head;
        if head == tail {
          head, tail := null, null;
        } else {
          head := first.next;
          first.prev := null;
        }
        nodes := nodes[1..];
        cnt := cnt - 1;
        forall i | 0 <= i < |nodes| ensures nodes[i].next == ElementAt(nodes, i + 1) {
          assert nodes[i] == old(nodes)[i + 1];
        }
      }
    }
  }

  // ---------- the doubly linked list ----------

  class Link<T> {
    const value: T
    var prev: Link?<T>
    var next: Link?<T>

    constructor (t: T)
      ensures value == t && prev == null && next == null
    {
      value, prev, next := t, null, null;
    }
  }

  ghost function LinkAt<T>(ns: seq<Link<T>>, i: int): Link?<T> { if 0 <= i < |ns| then ns[i] else null }

  lemma LinkAtIs<T>(ns: seq<Link<T>>, i: int)
    ensures LinkAt(ns, i) == if 0 <= i < |ns| then ns[i] else null
  {
  }

  lemma LinksAppended<T>(ns: seq<Link<T>>, elm: Link<T>)
    ensures forall j :: j < |ns| ==> LinkAt(ns + [elm], j) == LinkAt(ns, j)
  {
  }

  // The neighbours of a node after position i has been taken out.
  lemma LinksWithout<T>(ns: seq<Link<T>>, i: nat, j: nat)
    requires i < |ns| && j < |ns| - 1
    ensures var ms, k := Without(ns, i), if j < i then j else j + 1;
            && ms[j] == ns[k]
            && LinkAt(ms, j + 1) == LinkAt(ns, if k + 1 == i then k + 2 else k + 1)
            && LinkAt(ms, j - 1) == LinkAt(ns, if k - 1 == i then k - 2 else k - 1)
  {
  }

  ghost function ValuesOf<T>(ns: seq<Link<T>>): (s: seq<T>)
    ensures |s| == |ns| && forall i :: 0 <= i < |ns| ==> s[i] == ns[i].value
  {
    seq(|ns|, i requires 0 <= i < |ns| => ns[i].value)
  }

  lemma ValuesWithout<T>(ns: seq<Link<T>>, i: nat)
    requires i < |ns|
    ensures ValuesOf(Without(ns, i)) == Without(ValuesOf(ns), i)
  {
  }

  class DoublyLinked<T> {
    var first: Link?<T>
    var last: Link?<T>
    ghost var nodes: seq<Link<T>>

    ghost predicate Valid()
      reads this, nodes
    {
      && (if nodes == [] then first == null && last == null else first == nodes[0] && last == nodes[|nodes| - 1])
      && (forall i :: 0 <= i < |nodes| ==> nodes[i].next == LinkAt(nodes, i + 1))
      && (forall i :: 0 <= i < |nodes| ==> nodes[i].prev == LinkAt(nodes, i - 1))
      && (forall i, j :: 0 <= i < j < |nodes| ==> nodes[i] != nodes[j])
    }

    ghost function Values(): (s: seq<T>)
      reads this
    {
      ValuesOf(nodes)
    }

    constructor ()
      ensures Valid() && Values() == [] && nodes == []
    {
      first, last, nodes := null, null, [];
    }

    // The search loops: the first link with property p.
    method Find(p: T -> bool) returns (link: Link?<T>)
      requires Valid()
      ensures var i := FirstIndex(Values(), p);
              if i < |nodes| then link == nodes[i] else link == null
    {
      link := first;
      ghost var k := 0;
      while link != null && !p(link.value)
        invariant k <= |nodes| && link == (if k < |nodes| then nodes[k] else null)
        invariant forall j :: 0 <= j < k ==> !p(nodes[j].value)
        decreases |nodes| - k
      {
        link, k := link.next, k + 1;
      }
      FirstIs(Values(), p, k);
    }

    method Append(t: T) returns (elm: Link<T>)
      requires Valid()
      modifies this, nodes
      ensures Valid() && nodes == old(nodes) + [elm] && fresh(elm) && elm.value == t
      ensures Values() == old(Values()) + [t]
    {
      hide LinkAt;
      ghost var ns := nodes;
      elm := new Link(t);
      if first == null {
        first, last := elm, elm;
      } else {
        elm.prev := last;
        last.next := elm;
        last := elm;
      }
      nodes := nodes + [elm];
      LinksAppended(ns, elm);
      LinkAtIs(nodes, |ns|);
      LinkAtIs(nodes, |ns| - 1);
      LinkAtIs(nodes, |ns| + 1);
    }

    method Unlink(elm: Link<T>, ghost i: nat)
      requires Valid() && i < |nodes| && nodes[i] == elm
      modifies this, nodes
      ensures Valid() && nodes == Without(old(nodes), i)
      ensures Values() == Without(old(Values()), i)
    {
      hide LinkAt, Without;
      ghost var ns := nodes;
      LinkAtIs(ns, i - 1);
      LinkAtIs(ns, i + 1);
      if elm.prev == null {
        first := elm.next;
      } else {
        elm.prev.next := elm.next;
      }
      if elm.next == null {
        last := elm.prev;
      } else {
        elm.next.prev := elm.prev;
      }
      nodes := Without(nodes, i);
      WithoutAt(ns, i);
      ValuesWithout(ns, i);
      forall j | 0 <= j < |nodes|
        ensures nodes[j].next == LinkAt(nodes, j + 1) && nodes[j].prev == LinkAt(nodes, j - 1)
      {
        LinksWithout(ns, i, j);
      }
    }

    method Clear()
      modifies this
      ensures Valid() && Values() == [] && nodes == []
    {
      first, last, nodes := null, null, [];
    }
  }

  lemma FirstIs<T>(s: seq<T>, p: T -> bool, k: nat)
    requires k <= |s| && (k < |s| ==> p(s[k])) && forall j :: 0 <= j < k ==> !p(s[j])
    ensures FirstIndex(s, p) == k
  {
  }
}
