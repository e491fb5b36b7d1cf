/**
The heap form of the 2-3 tree: nodes updated in place as in MQTTSNGWProcess.h. Each node carries
a ghost copy of the tree it is the root of, and every method is tied to the function of the same
name in Tree23Model.
*/
module Tree23Heap {
  import opened Basics
  import opened Tree23Model

  const INSERT_ACTIVE := -2
  const DELETE_ACTIVE := -1
  const BI_NODE := 2
  const TRI_NODE := 3

  ghost function TreeOf<K, V>(n: Node?<K, V>): Tree<K, V>
    reads n
  {
    if n == null then Nil else n.tree
  }

  ghost function ReprOf<K, V>(n: Node?<K, V>): set<Node<K, V>>
    reads n
  {
    if n == null then {} else n.repr
  }

  ghost predicate Sound<K, V>(n: Node?<K, V>)
    reads n, ReprOf(n)
  {
    n != null ==> n.Valid()
  }

  ghost predicate Apart<K, V>(a: Node?<K, V>, b: Node?<K, V>)
    reads a, b
  {
    ReprOf(a) !! ReprOf(b)
  }

  class Node<K, V> {
    var kind: int
    var telm0: Option<Entry<K, V>>
    var telm1: Option<Entry<K, V>>
    var left: Node?<K, V>
    var midle: Node?<K, V>
    var right: Node?<K, V>
    ghost var tree: Tree<K, V>
    ghost var repr: set<Node<K, V>>

    ghost predicate Valid()
      reads this, repr
      ensures Valid() ==> this in repr
      decreases repr
    {
      && this in repr
      && (left != null ==> left in repr && left.repr <= repr && this !in left.repr && left.Valid())
      && (midle != null ==> midle in repr && midle.repr <= repr && this !in midle.repr && midle.Valid())
      && (right != null ==> right in repr && right.repr <= repr && this !in right.repr && right.Valid())
      && ReprOf(left) !! ReprOf(midle) && ReprOf(left) !! ReprOf(right) && ReprOf(midle) !! ReprOf(right)
      && Shaped()
    }

    // The fields are those of the ghost tree's root.
    ghost predicate Shaped()
      reads this, left, midle, right
    {
      match tree
      case Nil => false
      case Two(l, e, r) =>
        kind == BI_NODE && telm0 == Some(e) && midle == null && TreeOf(left) == l && TreeOf(right) == r
      case Up(l, e, r) =>
        kind == INSERT_ACTIVE && telm0 == Some(e) && midle == null && TreeOf(left) == l && TreeOf(right) == r
      case Three(l, e, m, f, r) =>
        && kind == TRI_NODE && telm0 == Some(e) && telm1 == Some(f)
        && TreeOf(left) == l && TreeOf(midle) == m && TreeOf(right) == r
      case Hole(m) =>
        kind == DELETE_ACTIVE && left == null && right == null && TreeOf(midle) == m
    }

    constructor Delete(m: Node?<K, V>)
      requires Sound(m)
      ensures Valid() && tree == Hole(TreeOf(m)) && repr == {this} + ReprOf(m)
    {
      kind, telm0, telm1 := DELETE_ACTIVE, None, None;
      left, midle, right := null, m, null;
      tree, repr := Hole(TreeOf(m)), {this} + ReprOf(m);
    }

    constructor Bi(active: bool, e: Entry<K, V>, l: Node?<K, V>, r: Node?<K, V>)
      requires Sound(l) && Sound(r) && ReprOf(l) !! ReprOf(r)
      ensures Valid() && repr == {this} + ReprOf(l) + ReprOf(r)
      ensures tree == if active then Up(TreeOf(l), e, TreeOf(r)) else Two(TreeOf(l), e, TreeOf(r))
    {
      kind, telm0, telm1 := if active then INSERT_ACTIVE else BI_NODE, Some(e), None;
      left, midle, right := l, null, r;
      tree := if active then Up(TreeOf(l), e, TreeOf(r)) else Two(TreeOf(l), e, TreeOf(r));
      repr := {this} + ReprOf(l) + ReprOf(r);
    }

    constructor Tri(e: Entry<K, V>, f: Entry<K, V>, l: Node?<K, V>, m: Node?<K, V>, r: Node?<K, V>)
      requires Sound(l) && Sound(m) && Sound(r)
      requires ReprOf(l) !! ReprOf(m) && ReprOf(l) !! ReprOf(r) && ReprOf(m) !! ReprOf(r)
      ensures Valid() && repr == {this} + ReprOf(l) + ReprOf(m) + ReprOf(r)
      ensures tree == Three(TreeOf(l), e, TreeOf(m), f, TreeOf(r))
    {
      kind, telm0, telm1 := TRI_NODE, Some(e), Some(f);
      left, midle, right := l, m, r;
      tree := Three(TreeOf(l), e, TreeOf(m), f, TreeOf(r));
      repr := {this} + ReprOf(l) + ReprOf(m) + ReprOf(r);
    }

    // Valid() taken apart one level.
    lemma Parts()
      requires Valid()
      ensures this in repr && Shaped()
      ensures Sound(left) && Sound(midle) && Sound(right)
      ensures Apart(left, midle) && Apart(left, right) && Apart(midle, right)
      ensures this !in ReprOf(left) && this !in ReprOf(midle) && this !in ReprOf(right)
      ensures ReprOf(left) <= repr && ReprOf(midle) <= repr && ReprOf(right) <= repr
    {
    }

    // And put together again.
    lemma Whole()
      requires repr == {this} + ReprOf(left) + ReprOf(midle) + ReprOf(right) && Shaped()
      requires Sound(left) && Sound(midle) && Sound(right)
      requires Apart(left, midle) && Apart(left, right) && Apart(midle, right)
      requires this !in ReprOf(left) && this !in ReprOf(midle) && this !in ReprOf(right)
      ensures Valid()
    {
    }

    // The node is a 2- or 3-node whose fields match its tree, except perhaps for one child that a
    // recursive call has consumed and whose replacement is c.
    ghost predicate Awaits(slot: nat, c: Node?<K, V>)
      reads this, left, midle, right, c, ReprOf(c), ReprOf(left), ReprOf(midle), ReprOf(right)
    {
      && (tree.Two? || tree.Three?)
      && kind == (if tree.Two? then BI_NODE else TRI_NODE)
      && telm0 == Some(tree.e0) && (if tree.Three? then telm1 == Some(tree.e1) else midle == null)
      && Sound(c) && this !in ReprOf(c)
      && (slot != 0 ==> Sound(left) && Apart(c, left) && this !in ReprOf(left) && TreeOf(left) == tree.left)
      && (slot != 1 ==> Sound(midle) && Apart(c, midle) && this !in ReprOf(midle)
                        && (tree.Three? ==> TreeOf(midle) == tree.midle))
      && (slot != 2 ==> Sound(right) && Apart(c, right) && this !in ReprOf(right) && TreeOf(right) == tree.right)
      && (slot == 0 ==> Apart(midle, right)) && (slot == 1 ==> Apart(left, right)) && (slot == 2 ==> Apart(left, midle))
    }

    // The in-place assignments to a node.

    method SetLeft(c: Node?<K, V>)
      requires Awaits(0, c)
      modifies this
      ensures Valid() && repr == {this} + ReprOf(c) + ReprOf(midle) + ReprOf(right)
      ensures midle == old(midle) && right == old(right)
      ensures tree == WithLeft(old(tree), TreeOf(c))
    {
      hide Node.Valid;
      left := c;
      tree := WithLeft(tree, TreeOf(c));
      repr := {this} + ReprOf(c) + ReprOf(midle) + ReprOf(right);
      Whole();
    }

    method SetMidle(c: Node?<K, V>)
      requires Awaits(1, c) && tree.Three?
      modifies this
      ensures Valid() && repr == {this} + ReprOf(left) + ReprOf(c) + ReprOf(right)
      ensures left == old(left) && right == old(right)
      ensures tree == WithMidle(old(tree), TreeOf(c))
    {
      hide Node.Valid;
      midle := c;
      tree := WithMidle(tree, TreeOf(c));
      repr := {this} + ReprOf(left) + ReprOf(c) + ReprOf(right);
      Whole();
    }

    method SetRight(c: Node?<K, V>)
      requires Awaits(2, c)
      modifies this
      ensures Valid() && repr == {this} + ReprOf(left) + ReprOf(midle) + ReprOf(c)
      ensures left == old(left) && midle == old(midle)
      ensures tree == WithRight(old(tree), TreeOf(c))
    {
      hide Node.Valid;
      right := c;
      tree := WithRight(tree, TreeOf(c));
      repr := {this} + ReprOf(left) + ReprOf(midle) + ReprOf(c);
      Whole();
    }

    method SetElm0(elm: Entry<K, V>)
      requires Valid() && (tree.Two? || tree.Three?)
      modifies this
      ensures Valid() && repr == old(repr)
      ensures tree == WithE0(old(tree), elm)
    {
      telm0 := Some(elm);
      tree := WithE0(tree, elm);
    }

    method SetElm1(elm: Entry<K, V>)
      requires Valid() && tree.Three?
      modifies this
      ensures Valid() && repr == old(repr)
      ensures tree == old(tree).(e1 := elm)
    {
      telm1 := Some(elm);
      tree := tree.(e1 := elm);
    }

    method Settle()
      requires Valid() && tree.Up?
      modifies this
      ensures Valid() && repr == old(repr)
      ensures tree == Two(old(tree).left, old(tree).e0, old(tree).right)
    {
      kind := BI_NODE;
      tree := Two(tree.left, tree.e0, tree.right);
    }

    method SetBranches(l: Node<K, V>, r: Node<K, V>)
      requires kind == INSERT_ACTIVE && tree.Up? && telm0 == Some(tree.e0) && midle == null
      requires l.Valid() && r.Valid() && Apart(l, r) && this !in l.repr && this !in r.repr
      modifies this
      ensures Valid() && repr == {this} + l.repr + r.repr
      ensures tree == Up(l.tree, old(tree).e0, r.tree)
    {
      hide Node.Valid;
      left, right := l, r;
      tree := Up(l.tree, tree.e0, r.tree);
      repr := {this} + l.repr + r.repr;
      Whole();
    }
  }

  method AddLeft2<K, V>(node: Node<K, V>) returns (r: Node<K, V>)
    requires node.Valid() && node.tree.Two?
    ensures r.Valid() && fresh(r.repr - node.repr)
    ensures var t := node.tree; r.tree == Tree23Model.AddLeft2(t.left, t.e0, t.right)
  {
    var n := node.left;
    if n != null && n.kind == INSERT_ACTIVE {
      r := new Node<K, V>.Tri(n.telm0.value, node.telm0.value, n.left, n.right, node.right);
    } else {
      r := node;
    }
  }

  method AddRight2<K, V>(node: Node<K, V>) returns (r: Node<K, V>)
    requires node.Valid() && node.tree.Two?
    ensures r.Valid() && fresh(r.repr - node.repr)
    ensures var t := node.tree; r.tree == Tree23Model.AddRight2(t.left, t.e0, t.right)
  {
    var n := node.right;
    if n != null && n.kind == INSERT_ACTIVE {
      r := new Node<K, V>.Tri(node.telm0.value, n.telm0.value, node.left, n.left, n.right);
    } else {
      r := node;
    }
  }

  // An active left (or right) child is passed on above two 2-nodes.
  method PassOnLeft<K, V>(n: Node<K, V>, e: Entry<K, V>, m: Node?<K, V>, f: Entry<K, V>, g: Node?<K, V>)
    returns (r: Node<K, V>)
    requires n.Valid() && n.tree.Up? && Sound(m) && Sound(g)
    requires Apart(n, m) && Apart(n, g) && Apart(m, g)
    modifies n
    ensures r.Valid() && fresh(r.repr - old(n.repr + ReprOf(m) + ReprOf(g)))
    ensures r.tree == Tree23Model.AddLeft3(old(n.tree), e, old(TreeOf(m)), f, old(TreeOf(g)))
  {
    hide Node.Valid;
    n.Settle();
    var nn := new Node<K, V>.Bi(false, f, m, g);
    r := new Node<K, V>.Bi(true, e, n, nn);
  }

  method PassOnRight<K, V>(l: Node?<K, V>, e: Entry<K, V>, m: Node?<K, V>, f: Entry<K, V>, n: Node<K, V>)
    returns (r: Node<K, V>)
    requires n.Valid() && n.tree.Up? && Sound(l) && Sound(m)
    requires Apart(n, l) && Apart(n, m) && Apart(l, m)
    modifies n
    ensures r.Valid() && fresh(r.repr - old(n.repr + ReprOf(l) + ReprOf(m)))
    ensures r.tree == Tree23Model.AddRight3(old(TreeOf(l)), e, old(TreeOf(m)), f, old(n.tree))
  {
    hide Node.Valid;
    n.Settle();
    var nn := new Node<K, V>.Bi(false, e, l, m);
    r := new Node<K, V>.Bi(true, f, nn, n);
  }

  // An active middle child takes over the outer children and becomes the node passed on.
  method PassOnMidle<K, V>(l: Node?<K, V>, e: Entry<K, V>, n: Node<K, V>, f: Entry<K, V>, g: Node?<K, V>)
    requires n.Valid() && n.tree.Up? && Sound(l) && Sound(g)
    requires Apart(n, l) && Apart(n, g) && Apart(l, g)
    modifies n
    ensures n.Valid() && fresh(n.repr - old(n.repr + ReprOf(l) + ReprOf(g)))
    ensures n.tree == Tree23Model.AddMidle3(old(TreeOf(l)), e, old(n.tree), f, old(TreeOf(g)))
  {
    hide Node.Valid;
    n.Parts();
    var a := new Node<K, V>.Bi(false, e, l, n.left);
    var b := new Node<K, V>.Bi(false, f, n.right, g);
    n.SetBranches(a, b);
  }

  method AddLeft3<K, V>(node: Node<K, V>) returns (r: Node<K, V>)
    requires node.Valid() && node.tree.Three?
    modifies node.repr
    ensures r.Valid() && fresh(r.repr - old(node.repr))
    ensures var t := old(node.tree); r.tree == Tree23Model.AddLeft3(t.left, t.e0, t.midle, t.e1, t.right)
  {
    var n := node.left;
    if n != null && n.kind == INSERT_ACTIVE {
      r := PassOnLeft(n, node.telm0.value, node.midle, node.telm1.value, node.right);
    } else {
      r := node;
    }
  }

  method AddRight3<K, V>(node: Node<K, V>) returns (r: Node<K, V>)
    requires node.Valid() && node.tree.Three?
    modifies node.repr
    ensures r.Valid() && fresh(r.repr - old(node.repr))
    ensures var t := old(node.tree); r.tree == Tree23Model.AddRight3(t.left, t.e0, t.midle, t.e1, t.right)
  {
    var n := node.right;
    if n != null && n.kind == INSERT_ACTIVE {
      r := PassOnRight(node.left, node.telm0.value, node.midle, node.telm1.value, n);
    } else {
      r := node;
    }
  }

  method AddMidle3<K, V>(node: Node<K, V>) returns (r: Node<K, V>)
    requires node.Valid() && node.tree.Three?
    modifies node.repr
    ensures r.Valid() && fresh(r.repr - old(node.repr))
    ensures var t := old(node.tree); r.tree == Tree23Model.AddMidle3(t.left, t.e0, t.midle, t.e1, t.right)
  {
    var n := node.midle;
    if n != null && n.kind == INSERT_ACTIVE {
      PassOnMidle(node.left, node.telm0.value, n, node.telm1.value, node.right);
      r := n;
    } else {
      r := node;
    }
  }

  method AddNode<K(!new), V>(cmp: (K, K) -> int, n: Node?<K, V>, elm: Entry<K, V>, ghost h: nat) returns (r: Node<K, V>)
    requires Sound(n) && Balanced(TreeOf(n), h)
    modifies ReprOf(n)
    ensures r.Valid() && fresh(r.repr - old(ReprOf(n)))
    ensures r.tree == Add(cmp, old(TreeOf(n)), elm)
    decreases h, 2
  {
    if n == null {
      r := new Node<K, V>.Bi(true, elm, null, null);
    } else if n.kind == BI_NODE {
      r := AddNode2(cmp, n, elm, h);
    } else {
      r := AddNode3(cmp, n, elm, h);
    }
  }

  method AddIntoLeft<K(!new), V>(cmp: (K, K) -> int, n: Node<K, V>, elm: Entry<K, V>, ghost h: nat)
    requires n.Valid() && (n.tree.Two? || n.tree.Three?) && Balanced(n.tree, h)
    modifies n.repr
    ensures n.Valid() && fresh(n.repr - old(n.repr))
    ensures n.tree == WithLeft(old(n.tree), Add(cmp, old(n.tree).left, elm))
    decreases h, 0
  {
    hide Node.Valid, Add;
    n.Parts();
    var c := AddNode(cmp, n.left, elm, h - 1);
    n.SetLeft(c);
  }

  method AddIntoMidle<K(!new), V>(cmp: (K, K) -> int, n: Node<K, V>, elm: Entry<K, V>, ghost h: nat)
    requires n.Valid() && n.tree.Three? && Balanced(n.tree, h)
    modifies n.repr
    ensures n.Valid() && fresh(n.repr - old(n.repr))
    ensures n.tree == WithMidle(old(n.tree), Add(cmp, old(n.tree).midle, elm))
    decreases h, 0
  {
    hide Node.Valid, Add;
    n.Parts();
    var c := AddNode(cmp, n.midle, elm, h - 1);
    n.SetMidle(c);
  }

  method AddIntoRight<K(!new), V>(cmp: (K, K) -> int, n: Node<K, V>, elm: Entry<K, V>, ghost h: nat)
    requires n.Valid() && (n.tree.Two? || n.tree.Three?) && Balanced(n.tree, h)
    modifies n.repr
    ensures n.Valid() && fresh(n.repr - old(n.repr))
    ensures n.tree == WithRight(old(n.tree), Add(cmp, old(n.tree).right, elm))
    decreases h, 0
  {
    hide Node.Valid, Add;
    n.Parts();
    var c := AddNode(cmp, n.right, elm, h - 1);
    n.SetRight(c);
  }

  method AddNode2<K(!new), V>(cmp: (K, K) -> int, n: Node<K, V>, elm: Entry<K, V>, ghost h: nat) returns (r: Node<K, V>)
    requires n.Valid() && n.tree.Two? && Balanced(n.tree, h)
    modifies n.repr
    ensures r.Valid() && fresh(r.repr - old(n.repr))
    ensures r.tree == Add(cmp, old(n.tree), elm)
    decreases h, 1
  {
    hide Node.Valid, Balanced;
    n.Parts();
    var c := cmp(elm.key, n.telm0.value.key);
    if c < 0 {
      AddIntoLeft(cmp, n, elm, h);
      r := AddLeft2(n);
    } else if c == 0 {
      n.SetElm0(elm);
      r := n;
    } else {
      AddIntoRight(cmp, n, elm, h);
      r := AddRight2(n);
    }
  }

  method AddNode3<K(!new), V>(cmp: (K, K) -> int, n: Node<K, V>, elm: Entry<K, V>, ghost h: nat) returns (r: Node<K, V>)
    requires n.Valid() && n.tree.Three? && Balanced(n.tree, h)
    modifies n.repr
    ensures r.Valid() && fresh(r.repr - old(n.repr))
    ensures r.tree == Add(cmp, old(n.tree), elm)
    decreases h, 1
  {
    hide Node.Valid, Balanced;
    n.Parts();
    var c0 := cmp(elm.key, n.telm0.value.key);
    var c1 := cmp(elm.key, n.telm1.value.key);
    if c0 < 0 {
      AddIntoLeft(cmp, n, elm, h);
      r := AddLeft3(n);
    } else if c0 == 0 {
      n.SetElm0(elm);
      r := n;
    } else if c1 < 0 {
      AddIntoMidle(cmp, n, elm, h);
      r := AddMidle3(n);
    } else if c1 == 0 {
      n.SetElm1(elm);
      r := n;
    } else {
      AddIntoRight(cmp, n, elm, h);
      r := AddRight3(n);
    }
  }

  // ---------- deletion ----------

  // The sibling that fills a hole exists: the two subtrees have the same height.
  ghost predicate Fillable<K, V>(hole: Tree<K, V>, sibling: Tree<K, V>) {
    hole.Hole? ==> sibling.Two? || sibling.Three?
  }

  // Filling a hole from a 2-node sibling merges, from a 3-node sibling borrows its nearest subtree.
  method MergeFromRight<K, V>(e: Entry<K, V>, c: Node?<K, V>, s: Node<K, V>) returns (res: Node<K, V>)
    requires Sound(c) && s.Valid() && s.tree.Two? && Apart(c, s)
    ensures res.Valid() && fresh(res.repr - ReprOf(c) - s.repr)
    ensures var t := s.tree; res.tree == Three(TreeOf(c), e, t.left, t.e0, t.right)
  {
    hide Node.Valid;
    s.Parts();
    res := new Node<K, V>.Tri(e, s.telm0.value, c, s.left, s.right);
  }

  method MergeFromLeft<K, V>(s: Node<K, V>, e: Entry<K, V>, c: Node?<K, V>) returns (res: Node<K, V>)
    requires Sound(c) && s.Valid() && s.tree.Two? && Apart(c, s)
    ensures res.Valid() && fresh(res.repr - ReprOf(c) - s.repr)
    ensures var t := s.tree; res.tree == Three(t.left, t.e0, t.right, e, TreeOf(c))
  {
    hide Node.Valid;
    s.Parts();
    res := new Node<K, V>.Tri(s.telm0.value, e, s.left, s.right, c);
  }

  method BorrowFromRight<K, V>(e: Entry<K, V>, c: Node?<K, V>, s: Node<K, V>) returns (a: Node<K, V>, b: Node<K, V>)
    requires Sound(c) && s.Valid() && s.tree.Three? && Apart(c, s)
    ensures a.Valid() && b.Valid() && Apart(a, b)
    ensures fresh(a.repr - ReprOf(c) - s.repr) && fresh(b.repr - ReprOf(c) - s.repr)
    ensures var t := s.tree; a.tree == Two(TreeOf(c), e, t.left) && b.tree == Two(t.midle, t.e1, t.right)
  {
    hide Node.Valid;
    s.Parts();
    a := new Node<K, V>.Bi(false, e, c, s.left);
    b := new Node<K, V>.Bi(false, s.telm1.value, s.midle, s.right);
  }

  method BorrowFromLeft<K, V>(s: Node<K, V>, e: Entry<K, V>, c: Node?<K, V>) returns (a: Node<K, V>, b: Node<K, V>)
    requires Sound(c) && s.Valid() && s.tree.Three? && Apart(c, s)
    ensures a.Valid() && b.Valid() && Apart(a, b)
    ensures fresh(a.repr - ReprOf(c) - s.repr) && fresh(b.repr - ReprOf(c) - s.repr)
    ensures var t := s.tree; a.tree == Two(t.left, t.e0, t.midle) && b.tree == Two(t.right, e, TreeOf(c))
  {
    hide Node.Valid;
    s.Parts();
    b := new Node<K, V>.Bi(false, e, s.right, c);
    a := new Node<K, V>.Bi(false, s.telm0.value, s.left, s.midle);
  }

  method RemoveLeft2<K, V>(node: Node<K, V>) returns (res: Node<K, V>)
    requires node.Valid() && node.tree.Two? && Fillable(node.tree.left, node.tree.right)
    ensures res.Valid() && fresh(res.repr - node.repr)
    ensures var t := node.tree; res.tree == Tree23Model.RemoveLeft2(t.left, t.e0, t.right)
  {
    hide Node.Valid;
    node.Parts();
    var n := node.left;
    if n != null { n.Parts(); }
    if n != null && n.kind == DELETE_ACTIVE {
      var r := node.right;
      r.Parts();
      if r.kind == BI_NODE {
        var m := MergeFromRight(node.telm0.value, n.midle, r);
        res := new Node<K, V>.Delete(m);
      } else {
        var a, b := BorrowFromRight(node.telm0.value, n.midle, r);
        res := new Node<K, V>.Bi(false, r.telm0.value, a, b);
      }
    } else {
      res := node;
    }
  }

  method RemoveRight2<K, V>(node: Node<K, V>) returns (res: Node<K, V>)
    requires node.Valid() && node.tree.Two? && Fillable(node.tree.right, node.tree.left)
    ensures res.Valid() && fresh(res.repr - node.repr)
    ensures var t := node.tree; res.tree == Tree23Model.RemoveRight2(t.left, t.e0, t.right)
  {
    hide Node.Valid;
    node.Parts();
    var n := node.right;
    if n != null { n.Parts(); }
    if n != null && n.kind == DELETE_ACTIVE {
      var l := node.left;
      l.Parts();
      if l.kind == BI_NODE {
        var m := MergeFromLeft(l, node.telm0.value, n.midle);
        res := new Node<K, V>.Delete(m);
      } else {
        var a, b := BorrowFromLeft(l, node.telm0.value, n.midle);
        res := new Node<K, V>.Bi(false, l.telm1.value, a, b);
      }
    } else {
      res := node;
    }
  }

  method RemoveLeft3<K, V>(node: Node<K, V>) returns (res: Node<K, V>)
    requires node.Valid() && node.tree.Three? && Fillable(node.tree.left, node.tree.midle)
    ensures res.Valid() && fresh(res.repr - node.repr)
    ensures var t := node.tree; res.tree == Tree23Model.RemoveLeft3(t.left, t.e0, t.midle, t.e1, t.right)
  {
    hide Node.Valid;
    node.Parts();
    var n := node.left;
    if n != null { n.Parts(); }
    if n != null && n.kind == DELETE_ACTIVE {
      var m := node.midle;
      m.Parts();
      if m.kind == BI_NODE {
        var a := MergeFromRight(node.telm0.value, n.midle, m);
        res := new Node<K, V>.Bi(false, node.telm1.value, a, node.right);
      } else {
        var a, b := BorrowFromRight(node.telm0.value, n.midle, m);
        res := new Node<K, V>.Tri(m.telm0.value, node.telm1.value, a, b, node.right);
      }
    } else {
      res := node;
    }
  }

  method RemoveMidle3<K, V>(node: Node<K, V>) returns (res: Node<K, V>)
    requires node.Valid() && node.tree.Three? && Fillable(node.tree.midle, node.tree.right)
    ensures res.Valid() && fresh(res.repr - node.repr)
    ensures var t := node.tree; res.tree == Tree23Model.RemoveMidle3(t.left, t.e0, t.midle, t.e1, t.right)
  {
    hide Node.Valid;
    node.Parts();
    var n := node.midle;
    if n != null { n.Parts(); }
    if n != null && n.kind == DELETE_ACTIVE {
      var r := node.right;
      r.Parts();
      if r.kind == BI_NODE {
        var a := MergeFromRight(node.telm1.value, n.midle, r);
        res := new Node<K, V>.Bi(false, node.telm0.value, node.left, a);
      } else {
        var a, b := BorrowFromRight(node.telm1.value, n.midle, r);
        res := new Node<K, V>.Tri(node.telm0.value, r.telm0.value, node.left, a, b);
      }
    } else {
      res := node;
    }
  }

  method RemoveRight3<K, V>(node: Node<K, V>) returns (res: Node<K, V>)
    requires node.Valid() && node.tree.Three? && Fillable(node.tree.right, node.tree.midle)
    ensures res.Valid() && fresh(res.repr - node.repr)
    ensures var t := node.tree; res.tree == Tree23Model.RemoveRight3(t.left, t.e0, t.midle, t.e1, t.right)
  {
    hide Node.Valid;
    node.Parts();
    var n := node.right;
    if n != null { n.Parts(); }
    if n != null && n.kind == DELETE_ACTIVE {
      var m := node.midle;
      m.Parts();
      if m.kind == BI_NODE {
        var a := MergeFromLeft(m, node.telm1.value, n.midle);
        res := new Node<K, V>.Bi(false, node.telm0.value, node.left, a);
      } else {
        var a, b := BorrowFromLeft(m, node.telm1.value, n.midle);
        res := new Node<K, V>.Tri(node.telm0.value, m.telm1.value, node.left, a, b);
      }
    } else {
      res := node;
    }
  }

  // removeMax: the largest entry of a non-empty tree, and the tree without it.
  method RemoveMaxNode<K, V>(node: Node<K, V>, ghost h: nat) returns (r: Node<K, V>, elm: Entry<K, V>)
    requires node.Valid() && Balanced(node.tree, h)
    modifies node.repr
    ensures r.Valid() && fresh(r.repr - old(node.repr))
    ensures (r.tree, Some(elm)) == RemoveMax(old(node.tree))
    decreases h
  {
    hide Node.Valid;
    node.Parts();
    if node.right == null {
      if node.kind == BI_NODE {
        elm := node.telm0.value;
        r := new Node<K, V>.Delete(null);
      } else {
        elm := node.telm1.value;
        r := new Node<K, V>.Bi(false, node.telm0.value, null, null);
      }
    } else {
      elm := TakeMaxFromRight(node, h);
      node.Parts();
      RemoveMaxCorrect(old(node.tree).right, h - 1);
      if node.kind == BI_NODE {
        r := RemoveRight2(node);
      } else {
        r := RemoveRight3(node);
      }
    }
  }

  method TakeMaxFromRight<K, V>(n: Node<K, V>, ghost h: nat) returns (elm: Entry<K, V>)
    requires n.Valid() && (n.tree.Two? || n.tree.Three?) && n.right != null && Balanced(n.tree, h)
    modifies n.repr
    ensures n.Valid() && fresh(n.repr - old(n.repr))
    ensures RemoveMax(old(n.tree).right).1 == Some(elm)
    ensures n.tree == WithRight(old(n.tree), RemoveMax(old(n.tree).right).0)
    decreases h, 0
  {
    hide Node.Valid, RemoveMax;
    n.Parts();
    var c;
    c, elm := RemoveMaxNode(n.right, h - 1);
    n.SetRight(c);
  }

  method TakeMaxFromLeft<K, V>(n: Node<K, V>, ghost h: nat) returns (elm: Entry<K, V>)
    requires n.Valid() && (n.tree.Two? || n.tree.Three?) && n.left != null && Balanced(n.tree, h)
    modifies n.repr
    ensures n.Valid() && fresh(n.repr - old(n.repr))
    ensures RemoveMax(old(n.tree).left).1 == Some(elm)
    ensures n.tree == WithLeft(old(n.tree), RemoveMax(old(n.tree).left).0)
    decreases h, 0
  {
    hide Node.Valid, RemoveMax;
    n.Parts();
    var c;
    c, elm := RemoveMaxNode(n.left, h - 1);
    n.SetLeft(c);
  }

  method TakeMaxFromMidle<K, V>(n: Node<K, V>, ghost h: nat) returns (elm: Entry<K, V>)
    requires n.Valid() && n.tree.Three? && n.midle != null && Balanced(n.tree, h)
    modifies n.repr
    ensures n.Valid() && fresh(n.repr - old(n.repr))
    ensures RemoveMax(old(n.tree).midle).1 == Some(elm)
    ensures n.tree == WithMidle(old(n.tree), RemoveMax(old(n.tree).midle).0)
    decreases h, 0
  {
    hide Node.Valid, RemoveMax;
    n.Parts();
    var c;
    c, elm := RemoveMaxNode(n.midle, h - 1);
    n.SetMidle(c);
  }

  method RemoveFromLeft<K(!new), V>(cmp: (K, K) -> int, n: Node<K, V>, k: K, ghost h: nat)
    requires n.Valid() && (n.tree.Two? || n.tree.Three?) && Balanced(n.tree, h)
    modifies n.repr
    ensures n.Valid() && fresh(n.repr - old(n.repr))
    ensures n.tree == WithLeft(old(n.tree), Remove(cmp, old(n.tree).left, k))
    decreases h, 0
  {
    hide Node.Valid, Remove;
    n.Parts();
    var c := RemoveNode(cmp, n.left, k, h - 1);
    n.SetLeft(c);
  }

  method RemoveFromMidle<K(!new), V>(cmp: (K, K) -> int, n: Node<K, V>, k: K, ghost h: nat)
    requires n.Valid() && n.tree.Three? && Balanced(n.tree, h)
    modifies n.repr
    ensures n.Valid() && fresh(n.repr - old(n.repr))
    ensures n.tree == WithMidle(old(n.tree), Remove(cmp, old(n.tree).midle, k))
    decreases h, 0
  {
    hide Node.Valid, Remove;
    n.Parts();
    var c := RemoveNode(cmp, n.midle, k, h - 1);
    n.SetMidle(c);
  }

  method RemoveFromRight<K(!new), V>(cmp: (K, K) -> int, n: Node<K, V>, k: K, ghost h: nat)
    requires n.Valid() && (n.tree.Two? || n.tree.Three?) && Balanced(n.tree, h)
    modifies n.repr
    ensures n.Valid() && fresh(n.repr - old(n.repr))
    ensures n.tree == WithRight(old(n.tree), Remove(cmp, old(n.tree).right, k))
    decreases h, 0
  {
    hide Node.Valid, Remove;
    n.Parts();
    var c := RemoveNode(cmp, n.right, k, h - 1);
    n.SetRight(c);
  }

  method RemoveNode<K(!new), V>(cmp: (K, K) -> int, node: Node?<K, V>, k: K, ghost h: nat) returns (r: Node?<K, V>)
    requires Sound(node) && Balanced(TreeOf(node), h)
    modifies ReprOf(node)
    ensures Sound(r) && fresh(ReprOf(r) - old(ReprOf(node)))
    ensures TreeOf(r) == Remove(cmp, old(TreeOf(node)), k)
    decreases h, 2
  {
    if node == null {
      r := null;
    } else if node.kind == BI_NODE {
      r := RemoveNode2(cmp, node, k, h);
    } else {
      r := RemoveNode3(cmp, node, k, h);
    }
  }

  method RemoveNode2<K(!new), V>(cmp: (K, K) -> int, node: Node<K, V>, k: K, ghost h: nat) returns (r: Node<K, V>)
    requires node.Valid() && node.tree.Two? && Balanced(node.tree, h)
    modifies node.repr
    ensures r.Valid() && fresh(r.repr - old(node.repr))
    ensures r.tree == Remove(cmp, old(node.tree), k)
    decreases h, 1
  {
    hide Node.Valid;
    node.Parts();
    ghost var t := node.tree;
    var c := cmp(k, node.telm0.value.key);
    if c < 0 {
      RemoveFromLeft(cmp, node, k, h);
      RemoveShrinks(cmp, t.left, k, h - 1);
      r := RemoveLeft2(node);
    } else if c == 0 {
      if node.left == null {
        r := new Node<K, V>.Delete(null);
      } else {
        var maxLeft := TakeMaxFromLeft(node, h);
        RemoveMaxCorrect(t.left, h - 1);
        node.SetElm0(maxLeft);
        r := RemoveLeft2(node);
      }
    } else {
      RemoveFromRight(cmp, node, k, h);
      RemoveShrinks(cmp, t.right, k, h - 1);
      r := RemoveRight2(node);
    }
  }

  method RemoveNode3<K(!new), V>(cmp: (K, K) -> int, node: Node<K, V>, k: K, ghost h: nat) returns (r: Node<K, V>)
    requires node.Valid() && node.tree.Three? && Balanced(node.tree, h)
    modifies node.repr
    ensures r.Valid() && fresh(r.repr - old(node.repr))
    ensures r.tree == Remove(cmp, old(node.tree), k)
    decreases h, 1
  {
    hide Node.Valid;
    node.Parts();
    ghost var t := node.tree;
    var c0 := cmp(k, node.telm0.value.key);
    var c1 := cmp(k, node.telm1.value.key);
    if c0 < 0 {
      RemoveFromLeft(cmp, node, k, h);
      RemoveShrinks(cmp, t.left, k, h - 1);
      r := RemoveLeft3(node);
    } else if c0 == 0 {
      if node.left == null {
        r := new Node<K, V>.Bi(false, node.telm1.value, null, null);
      } else {
        var maxLeft := TakeMaxFromLeft(node, h);
        RemoveMaxCorrect(t.left, h - 1);
        node.SetElm0(maxLeft);
        r := RemoveLeft3(node);
      }
    } else if c1 < 0 {
      RemoveFromMidle(cmp, node, k, h);
      RemoveShrinks(cmp, t.midle, k, h - 1);
      r := RemoveMidle3(node);
    } else if c1 == 0 {
      if node.midle == null {
        r := new Node<K, V>.Bi(false, node.telm0.value, null, null);
      } else {
        var maxMidle := TakeMaxFromMidle(node, h);
        RemoveMaxCorrect(t.midle, h - 1);
        node.SetElm1(maxMidle);
        r := RemoveMidle3(node);
      }
    } else {
      RemoveFromRight(cmp, node, k, h);
      RemoveShrinks(cmp, t.right, k, h - 1);
      r := RemoveRight3(node);
    }
  }

  // ---------- the tree ----------

  class Tree23<K(!new), V> {
    const cmp: (K, K) -> int
    var root: Node?<K, V>
    ghost var height: nat

    ghost predicate Valid()
      reads this, root, ReprOf(root)
    {
      TotalOrder(cmp) && Sound(root) && Balanced(TreeOf(root), height) && Sorted(cmp, Elements())
    }

    ghost function Elements(): Contents<K, V>
      reads this, root
    {
      Inorder(TreeOf(root))
    }

    constructor (compare: (K, K) -> int)
      requires TotalOrder(compare)
      ensures Valid() && cmp == compare && root == null && Elements() == []
    {
      cmp, root, height := compare, null, 0;
    }

    method Add(key: K, val: V)
      requires Valid()
      modifies this, ReprOf(root)
      ensures Valid() && fresh(ReprOf(root) - old(ReprOf(root)))
      ensures TreeOf(root) == AddRoot(cmp, old(TreeOf(root)), Entry(key, val))
      ensures Elements() == Put(cmp, old(Elements()), Entry(key, val))
      ensures old(height) <= height <= old(height) + 1
    {
      hide Node.Valid, Tree23Model.Add, Inorder, Sorted, TotalOrder, Put;
      AddRootCorrect(cmp, TreeOf(root), Entry(key, val), height);
      var r := AddNode(cmp, root, Entry(key, val), height);
      r.Parts();
      root := r;
      if root.kind == INSERT_ACTIVE {
        root.Settle();
        height := height + 1;
      }
    }

    method Remove(k: K)
      requires Valid()
      modifies this, ReprOf(root)
      ensures Valid() && fresh(ReprOf(root) - old(ReprOf(root)))
      ensures TreeOf(root) == RemoveRoot(cmp, old(TreeOf(root)), k)
      ensures Elements() == Delete(cmp, old(Elements()), k)
      ensures old(height) - 1 <= height <= old(height)
    {
      hide Node.Valid, Tree23Model.Remove, Inorder, Sorted, TotalOrder, Delete;
      RemoveRootCorrect(cmp, TreeOf(root), k, height);
      var r := RemoveNode(cmp, root, k, height);
      root := r;
      if root != null {
        root.Parts();
        if root.kind == DELETE_ACTIVE {
          root := root.midle;
          height := height - 1;
        }
      }
    }

    // Searching visits the nodes of the search path; with n entries these are at most log2(n + 1).
    method GetVal(key: K) returns (r: Option<V>, ghost visited: nat)
      requires Valid()
      ensures r == Lookup(cmp, Elements(), key)
      ensures visited == SearchLength(cmp, TreeOf(root), key) && Pow2(visited) <= |Elements()| + 1
    {
      hide Node.Valid, TotalOrder, Sorted;
      SearchIsLogarithmic(cmp, TreeOf(root), key, height);
      var node := root;
      ghost var h := height;
      visited := 0;
      while node != null
        invariant Sound(node) && Balanced(TreeOf(node), h)
        invariant visited + SearchLength(cmp, TreeOf(node), key) == SearchLength(cmp, TreeOf(root), key)
        invariant Sorted(cmp, Inorder(TreeOf(node)))
        invariant Lookup(cmp, Inorder(TreeOf(node)), key) == Lookup(cmp, Elements(), key)
        decreases h
      {
        node.Parts();
        LookupStep(cmp, node.tree, key);
        visited, h := visited + 1, h - 1;
        var c0 := cmp(key, node.telm0.value.key);
        if c0 < 0 {
          node := node.left;
        } else if c0 == 0 {
          return Some(node.telm0.value.val), visited;
        } else if node.kind == BI_NODE {
          node := node.right;
        } else {
          var c1 := cmp(key, node.telm1.value.key);
          if c1 < 0 {
            node := node.midle;
          } else if c1 == 0 {
              return Some(node.telm1.value.val), visited;
          } else {
            node := node.right;
          }
        }
      }
      r := None;
    }

    method Find(key: K) returns (found: bool, ghost visited: nat)
      requires Valid()
      ensures found <==> Lookup(cmp, Elements(), key).Some?
      ensures visited == SearchLength(cmp, TreeOf(root), key) && Pow2(visited) <= |Elements()| + 1
    {
      hide Node.Valid, TotalOrder, Sorted;
      SearchIsLogarithmic(cmp, TreeOf(root), key, height);
      var node := root;
      ghost var h := height;
      visited := 0;
      while node != null
        invariant Sound(node) && Balanced(TreeOf(node), h)
        invariant visited + SearchLength(cmp, TreeOf(node), key) == SearchLength(cmp, TreeOf(root), key)
        invariant Sorted(cmp, Inorder(TreeOf(node)))
        invariant Lookup(cmp, Inorder(TreeOf(node)), key) == Lookup(cmp, Elements(), key)
        decreases h
      {
        node.Parts();
        LookupStep(cmp, node.tree, key);
        visited, h := visited + 1, h - 1;
        var c0 := cmp(key, node.telm0.value.key);
        if c0 < 0 {
          node := node.left;
        } else if c0 == 0 {
          return true, visited;
        } else if node.kind == BI_NODE {
          node := node.right;
        } else {
          var c1 := cmp(key, node.telm1.value.key);
          if c1 < 0 {
            node := node.midle;
          } else if c1 == 0 {
              return true, visited;
          } else {
            node := node.right;
          }
        }
      }
      found := false;
    }
  }

  // ---------- whole runs ----------

  datatype Op<K, V> = AddOp(key: K, val: V) | RemoveOp(key: K)

  // The value that a history of operations leaves under a key: that of the last operation on it.
  function LastWrite<K, V>(cmp: (K, K) -> int, ops: seq<Op<K, V>>, k: K): Option<V> {
    if ops == [] then None
    else
      var op := ops[|ops| - 1];
      if cmp(k, op.key) != 0 then LastWrite(cmp, ops[..|ops| - 1], k)
      else if op.AddOp? then Some(op.val)
      else None
  }

  function Apply<K, V>(cmp: (K, K) -> int, ops: seq<Op<K, V>>): Contents<K, V> {
    if ops == [] then []
    else
      var s, op := Apply(cmp, ops[..|ops| - 1]), ops[|ops| - 1];
      match op
      case AddOp(k, v) => Put(cmp, s, Entry(k, v))
      case RemoveOp(k) => Delete(cmp, s, k)
  }

  // The tree itself, without a heap.
  function Grow<K, V>(cmp: (K, K) -> int, ops: seq<Op<K, V>>): Tree<K, V> {
    if ops == [] then Nil
    else
      var t, op := Grow(cmp, ops[..|ops| - 1]), ops[|ops| - 1];
      match op
      case AddOp(k, v) => AddRoot(cmp, t, Entry(k, v))
      case RemoveOp(k) => RemoveRoot(cmp, t, k)
  }

  lemma {:induction false} ApplyLookup<K(!new), V>(cmp: (K, K) -> int, ops: seq<Op<K, V>>, k: K)
    requires TotalOrder(cmp)
    ensures Lookup(cmp, Apply(cmp, ops), k) == LastWrite(cmp, ops, k)
  {
    if ops != [] {
      var before, op := ops[..|ops| - 1], ops[|ops| - 1];
      ApplyLookup(cmp, before, k);
      match op
      case AddOp(x, v) => PutMeaning(cmp, Apply(cmp, before), Entry(x, v), k);
      case RemoveOp(x) => DeleteMeaning(cmp, Apply(cmp, before), x, k);
    }
  }

  // Any sequence of adds and removes on an empty tree, then two lookups of any key: they see the
  // last operation on that key, each along the search path of the tree that the operations grow,
  // within log2(n + 1) nodes.
  method RunThenGet<K(!new), V>(compare: (K, K) -> int, ops: seq<Op<K, V>>, key: K)
    returns (r: Option<V>, found: bool, ghost visitedGet: nat, ghost visitedFind: nat)
    requires TotalOrder(compare)
    ensures r == LastWrite(compare, ops, key)
    ensures found <==> r.Some?
    ensures visitedGet == visitedFind == SearchLength(compare, Grow(compare, ops), key)
    ensures Pow2(visitedGet) <= |Apply(compare, ops)| + 1
  {
    var t := new Tree23<K, V>(compare);
    for i := 0 to |ops|
      invariant t.Valid() && t.cmp == compare && fresh(t) && fresh(ReprOf(t.root))
      invariant t.Elements() == Apply(compare, ops[..i]) && TreeOf(t.root) == Grow(compare, ops[..i])
    {
      assert ops[..i + 1][..i] == ops[..i];
      match ops[i]
      case AddOp(k, v) => t.Add(k, v);
      case RemoveOp(k) => t.Remove(k);
    }
    assert ops[..|ops|] == ops;
    ApplyLookup(compare, ops, key);
    r, visitedGet := t.GetVal(key);
    found, visitedFind := t.Find(key);
  }
}
