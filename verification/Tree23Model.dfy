/**
The 2-3 tree of the gateway (MQTTSNGWProcess.h) as a value: the shapes a node can have,
what each insertion and deletion step returns, and the proofs that these steps act on the
in-order contents as insertion into and deletion from a sorted association list.
*/
module Tree23Model {
  import opened Basics

  datatype Entry<K, V> = Entry(key: K, val: V)

  // Two and Three are the 2- and 3-nodes. Up is the "insert active" node, which the parent
  // absorbs or passes on; Hole is the "delete active" node, which stands for a subtree that
  // has lost one level.
  datatype Tree<K, V> =
    | Nil
    | Two(left: Tree<K, V>, e0: Entry<K, V>, right: Tree<K, V>)
    | Three(left: Tree<K, V>, e0: Entry<K, V>, midle: Tree<K, V>, e1: Entry<K, V>, right: Tree<K, V>)
    | Up(left: Tree<K, V>, e0: Entry<K, V>, right: Tree<K, V>)
    | Hole(midle: Tree<K, V>)

  type Contents<K, V> = seq<Entry<K, V>>

  // ---------- the order ----------

  ghost predicate TotalOrder<K(!new)>(cmp: (K, K) -> int) {
    && (forall a, b :: cmp(a, b) < 0 <==> cmp(b, a) > 0)
    && (forall a, b, c :: Transitive(cmp, a, b, c))
  }

  ghost predicate Transitive<K>(cmp: (K, K) -> int, a: K, b: K, c: K) {
    cmp(a, b) <= 0 && cmp(b, c) <= 0 ==> cmp(a, c) <= 0
  }

  lemma OrderStep<K(!new)>(cmp: (K, K) -> int, a: K, b: K, c: K)
    requires TotalOrder(cmp)
    ensures cmp(a, b) < 0 && cmp(b, c) <= 0 ==> cmp(a, c) < 0
    ensures cmp(a, b) <= 0 && cmp(b, c) < 0 ==> cmp(a, c) < 0
    ensures cmp(a, b) == 0 && cmp(b, c) == 0 ==> cmp(a, c) == 0
    ensures cmp(a, b) == 0 <==> cmp(b, a) == 0
  {
    assert Transitive(cmp, a, b, c) && Transitive(cmp, c, b, a);
    assert Transitive(cmp, b, c, a) && Transitive(cmp, c, a, b);
  }

  ghost predicate Sorted<K, V>(cmp: (K, K) -> int, s: Contents<K, V>) {
    forall i, j :: 0 <= i < j < |s| ==> cmp(s[i].key, s[j].key) < 0
  }

  // ---------- the reference: a sorted association list ----------

  function Below<K, V>(cmp: (K, K) -> int, s: Contents<K, V>, k: K): Contents<K, V> {
    if s == [] then []
    else (if cmp(s[0].key, k) < 0 then [s[0]] else []) + Below(cmp, s[1..], k)
  }

  function Above<K, V>(cmp: (K, K) -> int, s: Contents<K, V>, k: K): Contents<K, V> {
    if s == [] then []
    else (if cmp(k, s[0].key) < 0 then [s[0]] else []) + Above(cmp, s[1..], k)
  }

  // The entry for e's key replaces any entry with an equal key.
  function Put<K, V>(cmp: (K, K) -> int, s: Contents<K, V>, e: Entry<K, V>): Contents<K, V> {
    Below(cmp, s, e.key) + [e] + Above(cmp, s, e.key)
  }

  function Delete<K, V>(cmp: (K, K) -> int, s: Contents<K, V>, k: K): Contents<K, V> {
    Below(cmp, s, k) + Above(cmp, s, k)
  }

  // The value stored under a key equal to k, None when there is none.
  function Lookup<K, V>(cmp: (K, K) -> int, s: Contents<K, V>, k: K): Option<V> {
    if s == [] then None
    else if cmp(k, s[0].key) == 0 then Some(s[0].val)
    else Lookup(cmp, s[1..], k)
  }

  lemma {:induction false} BelowConcat<K, V>(cmp: (K, K) -> int, a: Contents<K, V>, b: Contents<K, V>, k: K)
    ensures Below(cmp, a + b, k) == Below(cmp, a, k) + Below(cmp, b, k)
  {
    if a == [] {
      assert a + b == b;
    } else {
      assert (a + b)[0] == a[0] && (a + b)[1..] == a[1..] + b;
      BelowConcat(cmp, a[1..], b, k);
      var x := if cmp(a[0].key, k) < 0 then [a[0]] else [];
      assert x + (Below(cmp, a[1..], k) + Below(cmp, b, k)) == x + Below(cmp, a[1..], k) + Below(cmp, b, k);
    }
  }

  lemma {:induction false} AboveConcat<K, V>(cmp: (K, K) -> int, a: Contents<K, V>, b: Contents<K, V>, k: K)
    ensures Above(cmp, a + b, k) == Above(cmp, a, k) + Above(cmp, b, k)
  {
    if a == [] {
      assert a + b == b;
    } else {
      assert (a + b)[0] == a[0] && (a + b)[1..] == a[1..] + b;
      AboveConcat(cmp, a[1..], b, k);
      var x := if cmp(k, a[0].key) < 0 then [a[0]] else [];
      assert x + (Above(cmp, a[1..], k) + Above(cmp, b, k)) == x + Above(cmp, a[1..], k) + Above(cmp, b, k);
    }
  }

  lemma {:induction false} FilterLow<K(!new), V>(cmp: (K, K) -> int, s: Contents<K, V>, k: K)
    requires TotalOrder(cmp)
    requires forall i :: 0 <= i < |s| ==> cmp(s[i].key, k) < 0
    ensures Below(cmp, s, k) == s && Above(cmp, s, k) == [] && Lookup(cmp, s, k).None?
  {
    if s != [] {
      assert s == [s[0]] + s[1..];
      FilterLow(cmp, s[1..], k);
    }
  }

  lemma {:induction false} FilterHigh<K(!new), V>(cmp: (K, K) -> int, s: Contents<K, V>, k: K)
    requires TotalOrder(cmp)
    requires forall i :: 0 <= i < |s| ==> cmp(k, s[i].key) < 0
    ensures Below(cmp, s, k) == [] && Above(cmp, s, k) == s && Lookup(cmp, s, k).None?
  {
    if s != [] {
      assert s == [s[0]] + s[1..];
      FilterHigh(cmp, s[1..], k);
    }
  }

  lemma SortedParts<K, V>(cmp: (K, K) -> int, l: Contents<K, V>, x: Entry<K, V>, r: Contents<K, V>)
    requires Sorted(cmp, l + [x] + r)
    ensures Sorted(cmp, l) && Sorted(cmp, r)
    ensures forall i :: 0 <= i < |l| ==> cmp(l[i].key, x.key) < 0
    ensures forall i :: 0 <= i < |r| ==> cmp(x.key, r[i].key) < 0
  {
    var s := l + [x] + r;
    assert forall i :: 0 <= i < |l| ==> s[i] == l[i];
    assert s[|l|] == x;
    forall i | 0 <= i < |r| ensures r[i] == s[|l| + 1 + i] {}
    forall i, j | 0 <= i < j < |r| ensures cmp(r[i].key, r[j].key) < 0 {
      assert cmp(s[|l| + 1 + i].key, s[|l| + 1 + j].key) < 0;
    }
  }

  lemma Filter3<K, V>(cmp: (K, K) -> int, l: Contents<K, V>, x: Entry<K, V>, r: Contents<K, V>, k: K)
    ensures Below(cmp, l + [x] + r, k) == Below(cmp, l, k) + Below(cmp, [x], k) + Below(cmp, r, k)
    ensures Above(cmp, l + [x] + r, k) == Above(cmp, l, k) + Above(cmp, [x], k) + Above(cmp, r, k)
  {
    BelowConcat(cmp, l + [x], r, k);
    BelowConcat(cmp, l, [x], k);
    AboveConcat(cmp, l + [x], r, k);
    AboveConcat(cmp, l, [x], k);
  }

  lemma {:induction false} LookupConcat<K, V>(cmp: (K, K) -> int, a: Contents<K, V>, b: Contents<K, V>, k: K)
    ensures Lookup(cmp, a + b, k) == (if Lookup(cmp, a, k).Some? then Lookup(cmp, a, k) else Lookup(cmp, b, k))
  {
    if a == [] {
      assert a + b == b;
    } else {
      assert (a + b)[1..] == a[1..] + b;
      LookupConcat(cmp, a[1..], b, k);
    }
  }

  lemma Lookup3<K, V>(cmp: (K, K) -> int, l: Contents<K, V>, x: Entry<K, V>, r: Contents<K, V>, k: K)
    ensures Lookup(cmp, l + [x] + r, k) ==
            if Lookup(cmp, l, k).Some? then Lookup(cmp, l, k)
            else if cmp(k, x.key) == 0 then Some(x.val)
            else Lookup(cmp, r, k)
  {
    LookupConcat(cmp, l + [x], r, k);
    LookupConcat(cmp, l, [x], k);
  }

  // How a search key acts on a sorted list around one of its entries.
  lemma FilterLeft<K(!new), V>(cmp: (K, K) -> int, l: Contents<K, V>, x: Entry<K, V>, r: Contents<K, V>, k: K)
    requires TotalOrder(cmp) && Sorted(cmp, l + [x] + r) && cmp(k, x.key) < 0
    ensures Sorted(cmp, l)
    ensures Below(cmp, l + [x] + r, k) == Below(cmp, l, k)
    ensures Above(cmp, l + [x] + r, k) == Above(cmp, l, k) + [x] + r
    ensures Lookup(cmp, l + [x] + r, k) == Lookup(cmp, l, k)
  {
    SortedParts(cmp, l, x, r);
    Filter3(cmp, l, x, r, k);
    Lookup3(cmp, l, x, r, k);
    FilterHigh(cmp, [x], k);
    forall i | 0 <= i < |r| ensures cmp(k, r[i].key) < 0 { OrderStep(cmp, k, x.key, r[i].key); }
    FilterHigh(cmp, r, k);
  }

  lemma Regroup<T>(a: seq<T>, b: seq<T>, c: seq<T>, d: seq<T>)
    ensures a + (b + c + d) == a + b + c + d
  {
  }

  lemma SplitLeft<K(!new), V>(cmp: (K, K) -> int, l: Contents<K, V>, x: Entry<K, V>, r: Contents<K, V>, e: Entry<K, V>)
    requires TotalOrder(cmp) && Sorted(cmp, l + [x] + r) && cmp(e.key, x.key) < 0
    ensures Sorted(cmp, l)
    ensures Put(cmp, l + [x] + r, e) == Put(cmp, l, e) + [x] + r
    ensures Delete(cmp, l + [x] + r, e.key) == Delete(cmp, l, e.key) + [x] + r
    ensures Lookup(cmp, l + [x] + r, e.key) == Lookup(cmp, l, e.key)
  {
    hide TotalOrder, Sorted, Below, Above, Lookup;
    FilterLeft(cmp, l, x, r, e.key);
    Regroup(Below(cmp, l, e.key) + [e], Above(cmp, l, e.key), [x], r);
    Regroup(Below(cmp, l, e.key), Above(cmp, l, e.key), [x], r);
  }

  lemma FilterRight<K(!new), V>(cmp: (K, K) -> int, l: Contents<K, V>, x: Entry<K, V>, r: Contents<K, V>, k: K)
    requires TotalOrder(cmp) && Sorted(cmp, l + [x] + r) && cmp(k, x.key) > 0
    ensures Sorted(cmp, r)
    ensures Below(cmp, l + [x] + r, k) == l + [x] + Below(cmp, r, k)
    ensures Above(cmp, l + [x] + r, k) == Above(cmp, r, k)
    ensures Lookup(cmp, l + [x] + r, k) == Lookup(cmp, r, k)
  {
    SortedParts(cmp, l, x, r);
    Filter3(cmp, l, x, r, k);
    Lookup3(cmp, l, x, r, k);
    FilterLow(cmp, [x], k);
    forall i | 0 <= i < |l| ensures cmp(l[i].key, k) < 0 { OrderStep(cmp, l[i].key, x.key, k); }
    FilterLow(cmp, l, k);
  }

  lemma SplitRight<K(!new), V>(cmp: (K, K) -> int, l: Contents<K, V>, x: Entry<K, V>, r: Contents<K, V>, e: Entry<K, V>)
    requires TotalOrder(cmp) && Sorted(cmp, l + [x] + r) && cmp(e.key, x.key) > 0
    ensures Sorted(cmp, r)
    ensures Put(cmp, l + [x] + r, e) == l + [x] + Put(cmp, r, e)
    ensures Delete(cmp, l + [x] + r, e.key) == l + [x] + Delete(cmp, r, e.key)
    ensures Lookup(cmp, l + [x] + r, e.key) == Lookup(cmp, r, e.key)
  {
    hide TotalOrder, Sorted, Below, Above, Lookup;
    FilterRight(cmp, l, x, r, e.key);
    Regroup(l + [x], Below(cmp, r, e.key), [e], Above(cmp, r, e.key));
    Regroup(l + [x], Below(cmp, r, e.key), Above(cmp, r, e.key), []);
    assert l + [x] + (Below(cmp, r, e.key) + Above(cmp, r, e.key))
        == l + [x] + Below(cmp, r, e.key) + Above(cmp, r, e.key);
  }

  lemma FilterAt<K(!new), V>(cmp: (K, K) -> int, l: Contents<K, V>, x: Entry<K, V>, r: Contents<K, V>, k: K)
    requires TotalOrder(cmp) && Sorted(cmp, l + [x] + r) && cmp(k, x.key) == 0
    ensures Below(cmp, l + [x] + r, k) == l
    ensures Above(cmp, l + [x] + r, k) == r
    ensures Lookup(cmp, l + [x] + r, k) == Some(x.val)
  {
    SortedParts(cmp, l, x, r);
    Filter3(cmp, l, x, r, k);
    Lookup3(cmp, l, x, r, k);
    OrderStep(cmp, k, x.key, k);
    assert Below(cmp, [x], k) == [] == Above(cmp, [x], k);
    forall i | 0 <= i < |l| ensures cmp(l[i].key, k) < 0 { OrderStep(cmp, l[i].key, x.key, k); }
    FilterLow(cmp, l, k);
    forall i | 0 <= i < |r| ensures cmp(k, r[i].key) < 0 { OrderStep(cmp, k, x.key, r[i].key); }
    FilterHigh(cmp, r, k);
  }

  lemma SplitAt<K(!new), V>(cmp: (K, K) -> int, l: Contents<K, V>, x: Entry<K, V>, r: Contents<K, V>, e: Entry<K, V>)
    requires TotalOrder(cmp) && Sorted(cmp, l + [x] + r) && cmp(e.key, x.key) == 0
    ensures Put(cmp, l + [x] + r, e) == l + [e] + r
    ensures Delete(cmp, l + [x] + r, e.key) == l + r
    ensures Lookup(cmp, l + [x] + r, e.key) == Some(x.val)
  {
    hide TotalOrder, Sorted;
    FilterAt(cmp, l, x, r, e.key);
  }

  // ---------- what a reference list means, key by key ----------

  lemma {:induction false} LookupFilters<K(!new), V>(cmp: (K, K) -> int, s: Contents<K, V>, k: K, k': K)
    requires TotalOrder(cmp)
    ensures Lookup(cmp, Below(cmp, s, k), k') == (if cmp(k', k) < 0 then Lookup(cmp, s, k') else None)
    ensures Lookup(cmp, Above(cmp, s, k), k') == (if cmp(k, k') < 0 then Lookup(cmp, s, k') else None)
  {
    if s != [] {
      var x := s[0].key;
      LookupFilters(cmp, s[1..], k, k');
      LookupConcat(cmp, if cmp(x, k) < 0 then [s[0]] else [], Below(cmp, s[1..], k), k');
      LookupConcat(cmp, if cmp(k, x) < 0 then [s[0]] else [], Above(cmp, s[1..], k), k');
      OrderStep(cmp, k', x, k);
      OrderStep(cmp, x, k', k);
      OrderStep(cmp, k, x, k');
      OrderStep(cmp, k, k', x);
    }
  }

  // Put overwrites exactly the entry of the equal key; Delete takes out exactly that one.
  lemma PutMeaning<K(!new), V>(cmp: (K, K) -> int, s: Contents<K, V>, e: Entry<K, V>, k: K)
    requires TotalOrder(cmp)
    ensures Lookup(cmp, Put(cmp, s, e), k) == (if cmp(k, e.key) == 0 then Some(e.val) else Lookup(cmp, s, k))
  {
    LookupFilters(cmp, s, e.key, k);
    Lookup3(cmp, Below(cmp, s, e.key), e, Above(cmp, s, e.key), k);
    OrderStep(cmp, k, e.key, k);
  }

  lemma DeleteMeaning<K(!new), V>(cmp: (K, K) -> int, s: Contents<K, V>, x: K, k: K)
    requires TotalOrder(cmp)
    ensures Lookup(cmp, Delete(cmp, s, x), k) == (if cmp(k, x) == 0 then None else Lookup(cmp, s, k))
  {
    LookupFilters(cmp, s, x, k);
    LookupConcat(cmp, Below(cmp, s, x), Above(cmp, s, x), k);
    OrderStep(cmp, k, x, k);
  }

  lemma SortedTail<K, V>(cmp: (K, K) -> int, s: Contents<K, V>)
    requires Sorted(cmp, s) && s != []
    ensures Sorted(cmp, s[1..]) && forall e :: e in s[1..] ==> e in s && cmp(s[0].key, e.key) < 0
  {
    var t := s[1..];
    forall i | 0 <= i < |t| ensures t[i] == s[i + 1] && cmp(s[0].key, t[i].key) < 0 {}
    forall i, j | 0 <= i < j < |t| ensures cmp(t[i].key, t[j].key) < 0 {
      assert cmp(s[i + 1].key, s[j + 1].key) < 0;
    }
  }

  lemma SortedCons<K, V>(cmp: (K, K) -> int, x: Entry<K, V>, b: Contents<K, V>)
    requires Sorted(cmp, b) && forall e :: e in b ==> cmp(x.key, e.key) < 0
    ensures Sorted(cmp, [x] + b)
  {
    var t := [x] + b;
    forall i, j | 0 <= i < j < |t| ensures cmp(t[i].key, t[j].key) < 0 {
      assert t[j] == b[j - 1] && t[j] in b;
    }
  }

  lemma {:induction false} BelowSorted<K(!new), V>(cmp: (K, K) -> int, s: Contents<K, V>, k: K)
    requires Sorted(cmp, s)
    ensures Sorted(cmp, Below(cmp, s, k))
    ensures forall e :: e in Below(cmp, s, k) ==> e in s && cmp(e.key, k) < 0
  {
    if s != [] {
      hide Sorted;
      var b := Below(cmp, s[1..], k);
      SortedTail(cmp, s);
      BelowSorted(cmp, s[1..], k);
      if cmp(s[0].key, k) < 0 {
        SortedCons(cmp, s[0], b);
      } else {
        assert [] + b == b;
      }
    }
  }

  lemma {:induction false} AboveSorted<K(!new), V>(cmp: (K, K) -> int, s: Contents<K, V>, k: K)
    requires Sorted(cmp, s)
    ensures Sorted(cmp, Above(cmp, s, k))
    ensures forall e :: e in Above(cmp, s, k) ==> e in s && cmp(k, e.key) < 0
  {
    if s != [] {
      hide Sorted;
      var b := Above(cmp, s[1..], k);
      SortedTail(cmp, s);
      AboveSorted(cmp, s[1..], k);
      if cmp(k, s[0].key) < 0 {
        SortedCons(cmp, s[0], b);
      } else {
        assert [] + b == b;
      }
    }
  }

  lemma DeleteSorted<K(!new), V>(cmp: (K, K) -> int, s: Contents<K, V>, k: K)
    requires TotalOrder(cmp) && Sorted(cmp, s)
    ensures Sorted(cmp, Delete(cmp, s, k))
  {
    BelowSorted(cmp, s, k);
    AboveSorted(cmp, s, k);
    var b, a := Below(cmp, s, k), Above(cmp, s, k);
    forall i, j | 0 <= i < |b| && 0 <= j < |a| ensures cmp(b[i].key, a[j].key) < 0 {
      assert b[i] in b && a[j] in a;
      OrderStep(cmp, b[i].key, k, a[j].key);
    }
  }

  lemma PutSorted<K(!new), V>(cmp: (K, K) -> int, s: Contents<K, V>, e: Entry<K, V>)
    requires TotalOrder(cmp) && Sorted(cmp, s)
    ensures Sorted(cmp, Put(cmp, s, e))
  {
    BelowSorted(cmp, s, e.key);
    AboveSorted(cmp, s, e.key);
    var b, a := Below(cmp, s, e.key), Above(cmp, s, e.key);
    forall i, j | 0 <= i < |b| && 0 <= j < |a| ensures cmp(b[i].key, a[j].key) < 0 {
      assert b[i] in b && a[j] in a;
      OrderStep(cmp, b[i].key, e.key, a[j].key);
    }
    forall i | 0 <= i < |b| ensures cmp(b[i].key, e.key) < 0 { assert b[i] in b; }
    forall j | 0 <= j < |a| ensures cmp(e.key, a[j].key) < 0 { assert a[j] in a; }
  }

  // ---------- shape and contents of a tree ----------

  function Inorder<K, V>(t: Tree<K, V>): Contents<K, V> {
    match t
    case Nil => []
    case Two(l, e, r) => Inorder(l) + [e] + Inorder(r)
    case Up(l, e, r) => Inorder(l) + [e] + Inorder(r)
    case Three(l, e, m, f, r) => Inorder(l) + [e] + (Inorder(m) + [f] + Inorder(r))
    case Hole(m) => Inorder(m)
  }

  // A 2- or 3-node with one part exchanged.
  function WithLeft<K, V>(t: Tree<K, V>, c: Tree<K, V>): Tree<K, V> {
    match t
    case Two(_, e, r) => Two(c, e, r)
    case Three(_, e, m, f, r) => Three(c, e, m, f, r)
    case _ => t
  }

  function WithMidle<K, V>(t: Tree<K, V>, c: Tree<K, V>): Tree<K, V> {
    match t
    case Three(l, e, _, f, r) => Three(l, e, c, f, r)
    case _ => t
  }

  function WithRight<K, V>(t: Tree<K, V>, c: Tree<K, V>): Tree<K, V> {
    match t
    case Two(l, e, _) => Two(l, e, c)
    case Three(l, e, m, f, _) => Three(l, e, m, f, c)
    case _ => t
  }

  function WithE0<K, V>(t: Tree<K, V>, x: Entry<K, V>): Tree<K, V> {
    match t
    case Two(l, _, r) => Two(l, x, r)
    case Three(l, _, m, f, r) => Three(l, x, m, f, r)
    case _ => t
  }

  // A proper tree: only 2- and 3-nodes, every leaf at depth h.
  ghost predicate Balanced<K, V>(t: Tree<K, V>, h: nat) {
    match t
    case Nil => h == 0
    case Two(l, _, r) => h > 0 && Balanced(l, h - 1) && Balanced(r, h - 1)
    case Three(l, _, m, _, r) => h > 0 && Balanced(l, h - 1) && Balanced(m, h - 1) && Balanced(r, h - 1)
    case Up(_, _, _) => false
    case Hole(_) => false
  }

  // What insertion into a tree of height h may return.
  ghost predicate Grown<K, V>(t: Tree<K, V>, h: nat) {
    if t.Up? then Balanced(t.left, h) && Balanced(t.right, h) else Balanced(t, h) && h > 0
  }

  // What deletion from a tree of height h may return.
  ghost predicate Shrunk<K, V>(t: Tree<K, V>, h: nat) {
    if t.Hole? then h > 0 && Balanced(t.midle, h - 1) else Balanced(t, h)
  }

  function Pow2(n: nat): nat { if n == 0 then 1 else 2 * Pow2(n - 1) }

  // n entries: a search path has at most log2(n + 1) nodes.
  lemma {:induction false} HeightIsLogarithmic<K, V>(t: Tree<K, V>, h: nat)
    requires Balanced(t, h)
    ensures Pow2(h) <= |Inorder(t)| + 1
  {
    match t
    case Nil =>
    case Two(l, _, r) =>
      HeightIsLogarithmic(l, h - 1);
      HeightIsLogarithmic(r, h - 1);
    case Three(l, _, m, _, r) =>
      HeightIsLogarithmic(l, h - 1);
      HeightIsLogarithmic(m, h - 1);
      HeightIsLogarithmic(r, h - 1);
  }

  lemma {:induction false} MonotonePow2(a: nat, b: nat)
    requires a <= b
    ensures Pow2(a) <= Pow2(b)
  {
    if a < b {
      MonotonePow2(a, b - 1);
    }
  }

  // ---------- insertion ----------

  function AddLeft2<K, V>(l: Tree<K, V>, e: Entry<K, V>, r: Tree<K, V>): Tree<K, V> {
    if l.Up? then Three(l.left, l.e0, l.right, e, r) else Two(l, e, r)
  }

  function AddRight2<K, V>(l: Tree<K, V>, e: Entry<K, V>, r: Tree<K, V>): Tree<K, V> {
    if r.Up? then Three(l, e, r.left, r.e0, r.right) else Two(l, e, r)
  }

  function AddLeft3<K, V>(l: Tree<K, V>, e: Entry<K, V>, m: Tree<K, V>, f: Entry<K, V>, r: Tree<K, V>): Tree<K, V> {
    if l.Up? then Up(Two(l.left, l.e0, l.right), e, Two(m, f, r)) else Three(l, e, m, f, r)
  }

  function AddMidle3<K, V>(l: Tree<K, V>, e: Entry<K, V>, m: Tree<K, V>, f: Entry<K, V>, r: Tree<K, V>): Tree<K, V> {
    if m.Up? then Up(Two(l, e, m.left), m.e0, Two(m.right, f, r)) else Three(l, e, m, f, r)
  }

  function AddRight3<K, V>(l: Tree<K, V>, e: Entry<K, V>, m: Tree<K, V>, f: Entry<K, V>, r: Tree<K, V>): Tree<K, V> {
    if r.Up? then Up(Two(l, e, m), f, Two(r.left, r.e0, r.right)) else Three(l, e, m, f, r)
  }

  function Add<K, V>(cmp: (K, K) -> int, t: Tree<K, V>, x: Entry<K, V>): Tree<K, V> {
    match t
    case Nil => Up(Nil, x, Nil)
    case Two(l, e, r) =>
      var c := cmp(x.key, e.key);
      if c < 0 then AddLeft2(Add(cmp, l, x), e, r)
      else if c == 0 then Two(l, x, r)
      else AddRight2(l, e, Add(cmp, r, x))
    case Three(l, e, m, f, r) =>
      var c0, c1 := cmp(x.key, e.key), cmp(x.key, f.key);
      if c0 < 0 then AddLeft3(Add(cmp, l, x), e, m, f, r)
      else if c0 == 0 then Three(l, x, m, f, r)
      else if c1 < 0 then AddMidle3(l, e, Add(cmp, m, x), f, r)
      else if c1 == 0 then Three(l, e, m, x, r)
      else AddRight3(l, e, m, f, Add(cmp, r, x))
    case Up(_, _, _) => t
    case Hole(_) => t
  }

  // The insertion helpers keep the entries and their order, and absorb or pass on an active child.
  lemma AddLeft2Keeps<K, V>(l: Tree<K, V>, e: Entry<K, V>, r: Tree<K, V>, h: nat)
    requires Grown(l, h) && Balanced(r, h)
    ensures Balanced(AddLeft2(l, e, r), h + 1)
    ensures Inorder(AddLeft2(l, e, r)) == Inorder(l) + [e] + Inorder(r)
  {
    if l.Up? {
      assert Inorder(l.left) + [l.e0] + (Inorder(l.right) + [e] + Inorder(r)) == Inorder(l) + [e] + Inorder(r);
    }
  }

  lemma AddRight2Keeps<K, V>(l: Tree<K, V>, e: Entry<K, V>, r: Tree<K, V>, h: nat)
    requires Balanced(l, h) && Grown(r, h)
    ensures Balanced(AddRight2(l, e, r), h + 1)
    ensures Inorder(AddRight2(l, e, r)) == Inorder(l) + [e] + Inorder(r)
  {
  }

  lemma AddLeft3Keeps<K, V>(l: Tree<K, V>, e: Entry<K, V>, m: Tree<K, V>, f: Entry<K, V>, r: Tree<K, V>, h: nat)
    requires Grown(l, h) && Balanced(m, h) && Balanced(r, h)
    ensures Grown(AddLeft3(l, e, m, f, r), h + 1)
    ensures AddLeft3(l, e, m, f, r).Up? <==> l.Up?
    ensures Inorder(AddLeft3(l, e, m, f, r)) == Inorder(l) + [e] + (Inorder(m) + [f] + Inorder(r))
  {
  }

  lemma AroundMidle<T>(a: seq<T>, b: seq<T>, x: T, c: seq<T>, d: seq<T>)
    ensures a + b + [x] + (c + d) == a + (b + [x] + c + d)
  {
  }

  lemma AddMidle3Keeps<K, V>(l: Tree<K, V>, e: Entry<K, V>, m: Tree<K, V>, f: Entry<K, V>, r: Tree<K, V>, h: nat)
    requires Balanced(l, h) && Grown(m, h) && Balanced(r, h)
    ensures Grown(AddMidle3(l, e, m, f, r), h + 1)
    ensures AddMidle3(l, e, m, f, r).Up? <==> m.Up?
    ensures Inorder(AddMidle3(l, e, m, f, r)) == Inorder(l) + [e] + (Inorder(m) + [f] + Inorder(r))
  {
    if m.Up? {
      AroundMidle(Inorder(l) + [e], Inorder(m.left), m.e0, Inorder(m.right), [f] + Inorder(r));
      Regroup([], Inorder(m.right), [f], Inorder(r));
      Regroup([], Inorder(m), [f], Inorder(r));
    }
  }

  lemma AddRight3Keeps<K, V>(l: Tree<K, V>, e: Entry<K, V>, m: Tree<K, V>, f: Entry<K, V>, r: Tree<K, V>, h: nat)
    requires Balanced(l, h) && Balanced(m, h) && Grown(r, h)
    ensures Grown(AddRight3(l, e, m, f, r), h + 1)
    ensures AddRight3(l, e, m, f, r).Up? <==> r.Up?
    ensures Inorder(AddRight3(l, e, m, f, r)) == Inorder(l) + [e] + (Inorder(m) + [f] + Inorder(r))
  {
    if r.Up? {
      Regroup(Inorder(l) + [e], Inorder(m), [f], Inorder(r));
    }
  }

  lemma {:induction false} AddCorrect<K(!new), V>(cmp: (K, K) -> int, t: Tree<K, V>, x: Entry<K, V>, h: nat)
    requires TotalOrder(cmp) && Balanced(t, h) && Sorted(cmp, Inorder(t))
    ensures Grown(Add(cmp, t, x), h)
    ensures Inorder(Add(cmp, t, x)) == Put(cmp, Inorder(t), x)
    decreases t, 1
  {
    match t
    case Nil =>
    case Two(l, e, r) =>
      AddCorrect2(cmp, t, x, h);
    case Three(l, e, m, f, r) =>
      AddCorrect3(cmp, t, x, h);
  }

  lemma {:induction false} AddCorrect2<K(!new), V>(cmp: (K, K) -> int, t: Tree<K, V>, x: Entry<K, V>, h: nat)
    requires t.Two?
    requires TotalOrder(cmp) && Balanced(t, h) && Sorted(cmp, Inorder(t))
    ensures Grown(Add(cmp, t, x), h)
    ensures Inorder(Add(cmp, t, x)) == Put(cmp, Inorder(t), x)
    decreases t, 0
  {
    hide TotalOrder, Sorted, Put, Delete;
    var Two(l, e, r) := t;
    var a, b := Inorder(l), Inorder(r);
    if cmp(x.key, e.key) < 0 {
      SplitLeft(cmp, a, e, b, x);
      AddCorrect(cmp, l, x, h - 1);
      AddLeft2Keeps(Add(cmp, l, x), e, r, h - 1);
    } else if cmp(x.key, e.key) == 0 {
      SplitAt(cmp, a, e, b, x);
    } else {
      SplitRight(cmp, a, e, b, x);
      AddCorrect(cmp, r, x, h - 1);
      AddRight2Keeps(l, e, Add(cmp, r, x), h - 1);
    }
  }

  lemma {:induction false} AddCorrect3<K(!new), V>(cmp: (K, K) -> int, t: Tree<K, V>, x: Entry<K, V>, h: nat)
    requires t.Three?
    requires TotalOrder(cmp) && Balanced(t, h) && Sorted(cmp, Inorder(t))
    ensures Grown(Add(cmp, t, x), h)
    ensures Inorder(Add(cmp, t, x)) == Put(cmp, Inorder(t), x)
    decreases t, 0
  {
    hide TotalOrder, Sorted, Put, Delete;
    var Three(l, e, m, f, r) := t;
    var a, b, c := Inorder(l), Inorder(m), Inorder(r);
    var k := x.key;
    if cmp(k, e.key) < 0 {
      SplitLeft(cmp, a, e, b + [f] + c, x);
      AddCorrect(cmp, l, x, h - 1);
      AddLeft3Keeps(Add(cmp, l, x), e, m, f, r, h - 1);
    } else if cmp(k, e.key) == 0 {
      SplitAt(cmp, a, e, b + [f] + c, x);
    } else {
      SplitRight(cmp, a, e, b + [f] + c, x);
      if cmp(k, f.key) < 0 {
        SplitLeft(cmp, b, f, c, x);
        AddCorrect(cmp, m, x, h - 1);
        AddMidle3Keeps(l, e, Add(cmp, m, x), f, r, h - 1);
      } else if cmp(k, f.key) == 0 {
        SplitAt(cmp, b, f, c, x);
      } else {
        SplitRight(cmp, b, f, c, x);
        AddCorrect(cmp, r, x, h - 1);
        AddRight3Keeps(l, e, m, f, Add(cmp, r, x), h - 1);
      }
    }
  }

  // The public add turns an active root into a 2-node: the one place where height grows.
  function AddRoot<K, V>(cmp: (K, K) -> int, t: Tree<K, V>, x: Entry<K, V>): Tree<K, V> {
    var u := Add(cmp, t, x);
    if u.Up? then Two(u.left, u.e0, u.right) else u
  }

  lemma AddRootCorrect<K(!new), V>(cmp: (K, K) -> int, t: Tree<K, V>, x: Entry<K, V>, h: nat)
    requires TotalOrder(cmp) && Balanced(t, h) && Sorted(cmp, Inorder(t))
    ensures Balanced(AddRoot(cmp, t, x), if Add(cmp, t, x).Up? then h + 1 else h)
    ensures Inorder(AddRoot(cmp, t, x)) == Put(cmp, Inorder(t), x)
    ensures Sorted(cmp, Inorder(AddRoot(cmp, t, x)))
  {
    AddCorrect(cmp, t, x, h);
    PutSorted(cmp, Inorder(t), x);
  }

  // ---------- deletion ----------

  function RemoveLeft2<K, V>(l: Tree<K, V>, e: Entry<K, V>, r: Tree<K, V>): Tree<K, V> {
    if l.Hole? && r.Two? then Hole(Three(l.midle, e, r.left, r.e0, r.right))
    else if l.Hole? && r.Three? then Two(Two(l.midle, e, r.left), r.e0, Two(r.midle, r.e1, r.right))
    else Two(l, e, r)
  }

  function RemoveRight2<K, V>(l: Tree<K, V>, e: Entry<K, V>, r: Tree<K, V>): Tree<K, V> {
    if r.Hole? && l.Two? then Hole(Three(l.left, l.e0, l.right, e, r.midle))
    else if r.Hole? && l.Three? then Two(Two(l.left, l.e0, l.midle), l.e1, Two(l.right, e, r.midle))
    else Two(l, e, r)
  }

  function RemoveLeft3<K, V>(l: Tree<K, V>, e: Entry<K, V>, m: Tree<K, V>, f: Entry<K, V>, r: Tree<K, V>): Tree<K, V> {
    if l.Hole? && m.Two? then Two(Three(l.midle, e, m.left, m.e0, m.right), f, r)
    else if l.Hole? && m.Three? then Three(Two(l.midle, e, m.left), m.e0, Two(m.midle, m.e1, m.right), f, r)
    else Three(l, e, m, f, r)
  }

  function RemoveMidle3<K, V>(l: Tree<K, V>, e: Entry<K, V>, m: Tree<K, V>, f: Entry<K, V>, r: Tree<K, V>): Tree<K, V> {
    if m.Hole? && r.Two? then Two(l, e, Three(m.midle, f, r.left, r.e0, r.right))
    else if m.Hole? && r.Three? then Three(l, e, Two(m.midle, f, r.left), r.e0, Two(r.midle, r.e1, r.right))
    else Three(l, e, m, f, r)
  }

  function RemoveRight3<K, V>(l: Tree<K, V>, e: Entry<K, V>, m: Tree<K, V>, f: Entry<K, V>, r: Tree<K, V>): Tree<K, V> {
    if r.Hole? && m.Two? then Two(l, e, Three(m.left, m.e0, m.right, f, r.midle))
    else if r.Hole? && m.Three? then Three(l, e, Two(m.left, m.e0, m.midle), m.e1, Two(m.right, f, r.midle))
    else Three(l, e, m, f, r)
  }

  // The largest entry and what is left of the tree without it.
  function RemoveMax<K, V>(t: Tree<K, V>): (Tree<K, V>, Option<Entry<K, V>>) {
    match t
    case Two(l, e, r) =>
      if r.Nil? then (Hole(Nil), Some(e))
      else var (r', x) := RemoveMax(r); (RemoveRight2(l, e, r'), x)
    case Three(l, e, m, f, r) =>
      if r.Nil? then (Two(Nil, e, Nil), Some(f))
      else var (r', x) := RemoveMax(r); (RemoveRight3(l, e, m, f, r'), x)
    case _ => (t, None)
  }

  function Remove<K, V>(cmp: (K, K) -> int, t: Tree<K, V>, k: K): Tree<K, V> {
    match t
    case Two(l, e, r) =>
      var c := cmp(k, e.key);
      if c < 0 then RemoveLeft2(Remove(cmp, l, k), e, r)
      else if c > 0 then RemoveRight2(l, e, Remove(cmp, r, k))
      else if l.Nil? then Hole(Nil)
      else var (l', x) := RemoveMax(l); RemoveLeft2(l', if x.Some? then x.value else e, r)
    case Three(l, e, m, f, r) =>
      var c0, c1 := cmp(k, e.key), cmp(k, f.key);
      if c0 < 0 then RemoveLeft3(Remove(cmp, l, k), e, m, f, r)
      else if c0 == 0 then
        if l.Nil? then Two(Nil, f, Nil)
        else var (l', x) := RemoveMax(l); RemoveLeft3(l', if x.Some? then x.value else e, m, f, r)
      else if c1 < 0 then RemoveMidle3(l, e, Remove(cmp, m, k), f, r)
      else if c1 == 0 then
        if m.Nil? then Two(Nil, e, Nil)
        else var (m', x) := RemoveMax(m); RemoveMidle3(l, e, m', if x.Some? then x.value else f, r)
      else RemoveRight3(l, e, m, f, Remove(cmp, r, k))
    case _ => t
  }

  // Each deletion helper fills the hole by rotation or merging: the entries and their order stay,
  // and the result is a tree of the same height or a hole one level shorter.
  lemma RemoveLeft2Keeps<K, V>(l: Tree<K, V>, e: Entry<K, V>, r: Tree<K, V>, h: nat)
    requires Shrunk(l, h) && Balanced(r, h)
    ensures Shrunk(RemoveLeft2(l, e, r), h + 1)
    ensures Inorder(RemoveLeft2(l, e, r)) == Inorder(l) + [e] + Inorder(r)
  {
    if l.Hole? && r.Three? {
      var a, b, c, d := Inorder(l.midle), Inorder(r.left), Inorder(r.midle), Inorder(r.right);
      assert a + [e] + b + [r.e0] + (c + [r.e1] + d) == a + [e] + (b + [r.e0] + (c + [r.e1] + d));
    }
  }

  lemma RemoveRight2Keeps<K, V>(l: Tree<K, V>, e: Entry<K, V>, r: Tree<K, V>, h: nat)
    requires Balanced(l, h) && Shrunk(r, h)
    ensures Shrunk(RemoveRight2(l, e, r), h + 1)
    ensures Inorder(RemoveRight2(l, e, r)) == Inorder(l) + [e] + Inorder(r)
  {
    if r.Hole? && l.Two? {
      var a, b, c := Inorder(l.left), Inorder(l.right), Inorder(r.midle);
      assert a + [l.e0] + (b + [e] + c) == a + [l.e0] + b + [e] + c;
    } else if r.Hole? {
      var a, b, c, d := Inorder(l.left), Inorder(l.midle), Inorder(l.right), Inorder(r.midle);
      assert a + [l.e0] + b + [l.e1] + (c + [e] + d) == a + [l.e0] + (b + [l.e1] + c) + [e] + d;
    }
  }

  lemma RemoveLeft3Keeps<K, V>(l: Tree<K, V>, e: Entry<K, V>, m: Tree<K, V>, f: Entry<K, V>, r: Tree<K, V>, h: nat)
    requires Shrunk(l, h) && Balanced(m, h) && Balanced(r, h)
    ensures Balanced(RemoveLeft3(l, e, m, f, r), h + 1)
    ensures Inorder(RemoveLeft3(l, e, m, f, r)) == Inorder(l) + [e] + (Inorder(m) + [f] + Inorder(r))
  {
    var a, z := Inorder(l), Inorder(r);
    if l.Hole? && m.Two? {
      var b, c := Inorder(m.left), Inorder(m.right);
      assert a + [e] + (b + [m.e0] + c) + [f] + z == a + [e] + (b + [m.e0] + c + [f] + z);
    } else if l.Hole? {
      var b, c, d := Inorder(m.left), Inorder(m.midle), Inorder(m.right);
      assert a + [e] + b + [m.e0] + (c + [m.e1] + d + [f] + z) == a + [e] + (b + [m.e0] + (c + [m.e1] + d) + [f] + z);
    }
  }

  lemma RemoveMidle3Keeps<K, V>(l: Tree<K, V>, e: Entry<K, V>, m: Tree<K, V>, f: Entry<K, V>, r: Tree<K, V>, h: nat)
    requires Balanced(l, h) && Shrunk(m, h) && Balanced(r, h)
    ensures Balanced(RemoveMidle3(l, e, m, f, r), h + 1)
    ensures Inorder(RemoveMidle3(l, e, m, f, r)) == Inorder(l) + [e] + (Inorder(m) + [f] + Inorder(r))
  {
    var a := Inorder(m);
    if m.Hole? && r.Three? {
      var b, c, d := Inorder(r.left), Inorder(r.midle), Inorder(r.right);
      assert a + [f] + b + [r.e0] + (c + [r.e1] + d) == a + [f] + (b + [r.e0] + (c + [r.e1] + d));
    }
  }

  lemma RemoveRight3Keeps<K, V>(l: Tree<K, V>, e: Entry<K, V>, m: Tree<K, V>, f: Entry<K, V>, r: Tree<K, V>, h: nat)
    requires Balanced(l, h) && Balanced(m, h) && Shrunk(r, h)
    ensures Balanced(RemoveRight3(l, e, m, f, r), h + 1)
    ensures Inorder(RemoveRight3(l, e, m, f, r)) == Inorder(l) + [e] + (Inorder(m) + [f] + Inorder(r))
  {
    var z := Inorder(r);
    if r.Hole? && m.Two? {
      var b, c := Inorder(m.left), Inorder(m.right);
      assert b + [m.e0] + (c + [f] + z) == b + [m.e0] + c + [f] + z;
    } else if r.Hole? {
      var b, c, d := Inorder(m.left), Inorder(m.midle), Inorder(m.right);
      assert b + [m.e0] + c + [m.e1] + (d + [f] + z) == b + [m.e0] + (c + [m.e1] + d) + [f] + z;
    }
  }

  lemma Reassociate<T>(a: seq<T>, e: T, b: seq<T>, x: T)
    ensures a + [e] + (b + [x]) == a + [e] + b + [x]
  {
  }

  // RemoveMax takes out exactly the last entry in order.
  lemma {:induction false} RemoveMaxCorrect<K, V>(t: Tree<K, V>, h: nat)
    requires Balanced(t, h) && h > 0
    ensures RemoveMax(t).1.Some?
    ensures Shrunk(RemoveMax(t).0, h)
    ensures Inorder(t) == Inorder(RemoveMax(t).0) + [RemoveMax(t).1.value]
  {
    var r := t.right;
    if r.Nil? {
      assert h == 1;
    } else {
      RemoveMaxCorrect(r, h - 1);
      var (r', x) := RemoveMax(r);
      if t.Two? {
        RemoveRight2Keeps(t.left, t.e0, r', h - 1);
        Reassociate(Inorder(t.left), t.e0, Inorder(r'), x.value);
      } else {
        RemoveRight3Keeps(t.left, t.e0, t.midle, t.e1, r', h - 1);
        Reassociate(Inorder(t.midle), t.e1, Inorder(r'), x.value);
        Reassociate(Inorder(t.left), t.e0, Inorder(t.midle) + [t.e1] + Inorder(r'), x.value);
      }
    }
  }

  // The entries of a 3-node are replaced by their in-order predecessors.
  lemma RemoveFirst3<K, V>(l: Tree<K, V>, e: Entry<K, V>, m: Tree<K, V>, f: Entry<K, V>, r: Tree<K, V>, h: nat)
    requires Balanced(Three(l, e, m, f, r), h)
    ensures l.Nil? ==> Inorder(l) == Inorder(m) == Inorder(r) == [] && h == 1
    ensures !l.Nil? ==>
              && RemoveMax(l).1.Some?
              && var u := RemoveLeft3(RemoveMax(l).0, RemoveMax(l).1.value, m, f, r);
                 Balanced(u, h) && Inorder(u) == Inorder(l) + (Inorder(m) + [f] + Inorder(r))
  {
    if !l.Nil? {
      RemoveMaxCorrect(l, h - 1);
      RemoveLeft3Keeps(RemoveMax(l).0, RemoveMax(l).1.value, m, f, r, h - 1);
    }
  }

  lemma RemoveSecond3<K, V>(l: Tree<K, V>, e: Entry<K, V>, m: Tree<K, V>, f: Entry<K, V>, r: Tree<K, V>, h: nat)
    requires Balanced(Three(l, e, m, f, r), h)
    ensures m.Nil? ==> Inorder(l) == Inorder(m) == Inorder(r) == [] && h == 1
    ensures !m.Nil? ==>
              && RemoveMax(m).1.Some?
              && var u := RemoveMidle3(l, e, RemoveMax(m).0, RemoveMax(m).1.value, r);
                 Balanced(u, h) && Inorder(u) == Inorder(l) + [e] + (Inorder(m) + Inorder(r))
  {
    if !m.Nil? {
      RemoveMaxCorrect(m, h - 1);
      RemoveMidle3Keeps(l, e, RemoveMax(m).0, RemoveMax(m).1.value, r, h - 1);
    }
  }

  // Deletion loses at most one level, and then says so by a hole at the top.
  lemma {:induction false} RemoveShrinks<K, V>(cmp: (K, K) -> int, t: Tree<K, V>, k: K, h: nat)
    requires Balanced(t, h)
    ensures Shrunk(Remove(cmp, t, k), h)
  {
    hide Inorder, RemoveLeft2, RemoveRight2, RemoveLeft3, RemoveMidle3, RemoveRight3, RemoveMax;
    match t
    case Nil =>
    case Two(l, e, r) =>
      if cmp(k, e.key) < 0 {
        RemoveShrinks(cmp, l, k, h - 1);
        RemoveLeft2Keeps(Remove(cmp, l, k), e, r, h - 1);
      } else if cmp(k, e.key) > 0 {
        RemoveShrinks(cmp, r, k, h - 1);
        RemoveRight2Keeps(l, e, Remove(cmp, r, k), h - 1);
      } else if !l.Nil? {
        RemoveMaxCorrect(l, h - 1);
        RemoveLeft2Keeps(RemoveMax(l).0, RemoveMax(l).1.value, r, h - 1);
      }
    case Three(l, e, m, f, r) =>
      if cmp(k, e.key) < 0 {
        RemoveShrinks(cmp, l, k, h - 1);
        RemoveLeft3Keeps(Remove(cmp, l, k), e, m, f, r, h - 1);
      } else if cmp(k, e.key) == 0 {
        RemoveFirst3(l, e, m, f, r, h);
      } else if cmp(k, f.key) < 0 {
        RemoveShrinks(cmp, m, k, h - 1);
        RemoveMidle3Keeps(l, e, Remove(cmp, m, k), f, r, h - 1);
      } else if cmp(k, f.key) == 0 {
        RemoveSecond3(l, e, m, f, r, h);
      } else {
        RemoveShrinks(cmp, r, k, h - 1);
        RemoveRight3Keeps(l, e, m, f, Remove(cmp, r, k), h - 1);
      }
  }

  lemma {:induction false} RemoveCorrect<K(!new), V>(cmp: (K, K) -> int, t: Tree<K, V>, k: K, h: nat)
    requires TotalOrder(cmp) && Balanced(t, h) && Sorted(cmp, Inorder(t))
    ensures Inorder(Remove(cmp, t, k)) == Delete(cmp, Inorder(t), k)
    decreases t, 2
  {
    match t
    case Nil =>
    case Two(l, e, r) =>
      RemoveCorrect2(cmp, t, k, h);
    case Three(l, e, m, f, r) =>
      RemoveCorrect3(cmp, t, k, h);
  }

  lemma {:induction false} RemoveCorrect2<K(!new), V>(cmp: (K, K) -> int, t: Tree<K, V>, k: K, h: nat)
    requires t.Two?
    requires TotalOrder(cmp) && Balanced(t, h) && Sorted(cmp, Inorder(t))
    ensures Inorder(Remove(cmp, t, k)) == Delete(cmp, Inorder(t), k)
    decreases t, 0
  {
    hide TotalOrder, Sorted, Put, Delete;
    var Two(l, e, r) := t;
    var a, b := Inorder(l), Inorder(r);
    if cmp(k, e.key) < 0 {
      SplitLeft(cmp, a, e, b, Entry(k, e.val));
      RemoveCorrect(cmp, l, k, h - 1);
      RemoveShrinks(cmp, l, k, h - 1);
      RemoveLeft2Keeps(Remove(cmp, l, k), e, r, h - 1);
    } else if cmp(k, e.key) > 0 {
      SplitRight(cmp, a, e, b, Entry(k, e.val));
      RemoveCorrect(cmp, r, k, h - 1);
      RemoveShrinks(cmp, r, k, h - 1);
      RemoveRight2Keeps(l, e, Remove(cmp, r, k), h - 1);
    } else {
      SplitAt(cmp, a, e, b, Entry(k, e.val));
      if !l.Nil? {
        RemoveMaxCorrect(l, h - 1);
        var (l', x) := RemoveMax(l);
        RemoveLeft2Keeps(l', x.value, r, h - 1);
      }
    }
  }

  lemma {:induction false} RemoveCorrect3<K(!new), V>(cmp: (K, K) -> int, t: Tree<K, V>, k: K, h: nat)
    requires t.Three?
    requires TotalOrder(cmp) && Balanced(t, h) && Sorted(cmp, Inorder(t))
    ensures Inorder(Remove(cmp, t, k)) == Delete(cmp, Inorder(t), k)
    decreases t, 1
  {
    hide TotalOrder, Sorted, Put, Delete;
    var Three(l, e, m, f, r) := t;
    var a, b, c := Inorder(l), Inorder(m), Inorder(r);
    if cmp(k, e.key) < 0 {
      SplitLeft(cmp, a, e, b + [f] + c, Entry(k, e.val));
      RemoveCorrect(cmp, l, k, h - 1);
      RemoveShrinks(cmp, l, k, h - 1);
      RemoveLeft3Keeps(Remove(cmp, l, k), e, m, f, r, h - 1);
    } else if cmp(k, e.key) == 0 {
      SplitAt(cmp, a, e, b + [f] + c, Entry(k, e.val));
      RemoveFirst3(l, e, m, f, r, h);
    } else {
      RemoveCorrect3Upper(cmp, t, k, h);
    }
  }

  lemma {:induction false} RemoveCorrect3Upper<K(!new), V>(cmp: (K, K) -> int, t: Tree<K, V>, k: K, h: nat)
    requires t.Three? && cmp(k, t.e0.key) > 0
    requires TotalOrder(cmp) && Balanced(t, h) && Sorted(cmp, Inorder(t))
    ensures Inorder(Remove(cmp, t, k)) == Delete(cmp, Inorder(t), k)
    decreases t, 0
  {
    hide TotalOrder, Sorted, Put, Delete;
    var Three(l, e, m, f, r) := t;
    var a, b, c := Inorder(l), Inorder(m), Inorder(r);
    SplitRight(cmp, a, e, b + [f] + c, Entry(k, e.val));
    if cmp(k, f.key) < 0 {
      SplitLeft(cmp, b, f, c, Entry(k, e.val));
      RemoveCorrect(cmp, m, k, h - 1);
      RemoveShrinks(cmp, m, k, h - 1);
      RemoveMidle3Keeps(l, e, Remove(cmp, m, k), f, r, h - 1);
    } else if cmp(k, f.key) == 0 {
      SplitAt(cmp, b, f, c, Entry(k, e.val));
      RemoveSecond3(l, e, m, f, r, h);
    } else {
      SplitRight(cmp, b, f, c, Entry(k, e.val));
      RemoveCorrect(cmp, r, k, h - 1);
      RemoveShrinks(cmp, r, k, h - 1);
      RemoveRight3Keeps(l, e, m, f, Remove(cmp, r, k), h - 1);
    }
  }

  // The public remove drops a hole at the root.
  function RemoveRoot<K, V>(cmp: (K, K) -> int, t: Tree<K, V>, k: K): Tree<K, V> {
    var u := Remove(cmp, t, k);
    if u.Hole? then u.midle else u
  }

  lemma RemoveRootCorrect<K(!new), V>(cmp: (K, K) -> int, t: Tree<K, V>, k: K, h: nat)
    requires TotalOrder(cmp) && Balanced(t, h) && Sorted(cmp, Inorder(t))
    ensures Remove(cmp, t, k).Hole? ==> h > 0
    ensures Balanced(RemoveRoot(cmp, t, k), if Remove(cmp, t, k).Hole? then h - 1 else h)
    ensures Inorder(RemoveRoot(cmp, t, k)) == Delete(cmp, Inorder(t), k)
    ensures Sorted(cmp, Inorder(RemoveRoot(cmp, t, k)))
  {
    RemoveShrinks(cmp, t, k, h);
    RemoveCorrect(cmp, t, k, h);
    DeleteSorted(cmp, Inorder(t), k);
  }

  // ---------- search ----------

  // One step down the tree keeps the answer.
  // How many nodes the search for a key goes through.
  function SearchLength<K, V>(cmp: (K, K) -> int, t: Tree<K, V>, k: K): nat {
    match t
    case Two(l, e, r) =>
      if cmp(k, e.key) == 0 then 1 else 1 + SearchLength(cmp, if cmp(k, e.key) < 0 then l else r, k)
    case Three(l, e, m, f, r) =>
      if cmp(k, e.key) < 0 then 1 + SearchLength(cmp, l, k)
      else if cmp(k, e.key) == 0 || cmp(k, f.key) == 0 then 1
      else 1 + SearchLength(cmp, if cmp(k, f.key) < 0 then m else r, k)
    case _ => 0
  }

  // With n entries these are at most log2(n + 1) nodes.
  lemma SearchIsLogarithmic<K, V>(cmp: (K, K) -> int, t: Tree<K, V>, k: K, h: nat)
    requires Balanced(t, h)
    ensures SearchLength(cmp, t, k) <= h && Pow2(SearchLength(cmp, t, k)) <= |Inorder(t)| + 1
  {
    SearchWithinHeight(cmp, t, k, h);
    HeightIsLogarithmic(t, h);
    MonotonePow2(SearchLength(cmp, t, k), h);
  }

  lemma {:induction false} SearchWithinHeight<K, V>(cmp: (K, K) -> int, t: Tree<K, V>, k: K, h: nat)
    requires Balanced(t, h)
    ensures SearchLength(cmp, t, k) <= h
  {
    match t
    case Nil =>
    case Two(l, e, r) => SearchWithinHeight(cmp, if cmp(k, e.key) < 0 then l else r, k, h - 1);
    case Three(l, e, m, f, r) =>
      SearchWithinHeight(cmp, if cmp(k, e.key) < 0 then l else if cmp(k, f.key) < 0 then m else r, k, h - 1);
  }

  lemma LookupStep<K(!new), V>(cmp: (K, K) -> int, t: Tree<K, V>, k: K)
    requires TotalOrder(cmp) && Sorted(cmp, Inorder(t)) && (t.Two? || t.Three?)
    ensures cmp(k, t.e0.key) == 0 ==> Lookup(cmp, Inorder(t), k) == Some(t.e0.val)
    ensures cmp(k, t.e0.key) < 0 ==>
              Sorted(cmp, Inorder(t.left)) && Lookup(cmp, Inorder(t), k) == Lookup(cmp, Inorder(t.left), k)
    ensures cmp(k, t.e0.key) > 0 && (t.Two? || cmp(k, t.e1.key) > 0) ==>
              Sorted(cmp, Inorder(t.right)) && Lookup(cmp, Inorder(t), k) == Lookup(cmp, Inorder(t.right), k)
    ensures t.Three? && cmp(k, t.e0.key) > 0 && cmp(k, t.e1.key) == 0 ==>
              Lookup(cmp, Inorder(t), k) == Some(t.e1.val)
    ensures t.Three? && cmp(k, t.e0.key) > 0 && cmp(k, t.e1.key) < 0 ==>
              Sorted(cmp, Inorder(t.midle)) && Lookup(cmp, Inorder(t), k) == Lookup(cmp, Inorder(t.midle), k)
  {
    hide TotalOrder, Sorted;
    var a, e := Inorder(t.left), t.e0;
    var b := if t.Two? then Inorder(t.right) else Inorder(t.midle) + [t.e1] + Inorder(t.right);
    if cmp(k, e.key) < 0 {
      FilterLeft(cmp, a, e, b, k);
    } else if cmp(k, e.key) == 0 {
      FilterAt(cmp, a, e, b, k);
    } else {
      FilterRight(cmp, a, e, b, k);
      if t.Three? {
        var m, f, r := Inorder(t.midle), t.e1, Inorder(t.right);
        if cmp(k, f.key) < 0 {
          FilterLeft(cmp, m, f, r, k);
        } else if cmp(k, f.key) == 0 {
          FilterAt(cmp, m, f, r, k);
        } else {
          FilterRight(cmp, m, f, r, k);
        }
      }
    }
  }
}
