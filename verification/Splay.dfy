// Top-down splay trees (rbtree.h, SPLAY_GENERATE).
//
// A node keeps the two fields of SPLAY_ENTRY.  The ghost field up is its parent and the ghost
// interval (lo, hi) contains every key below it, so that the invariant is local to a node and its
// neighbours.
module Splay {
  class Node {
    const key: int
    var left: Node?
    var right: Node?
    ghost var up: Node?
    ghost var lo: int
    ghost var hi: int

    constructor (key: int)
      ensures this.key == key && left == right == null
    {
      this.key := key;
      left, right, up := null, null, null;
    }
  }

  ghost function Real(n: Node?): set<Node> {
    if n == null then {} else {n}
  }

  // Where node n of the tree all with root rt hangs, and what hangs from it.
  ghost predicate Linked(rt: Node?, all: set<Node>, lo: int, hi: int, n: Node)
    reads all`left, all`right, all`up, all`lo, all`hi
    requires n in all
  {
    && lo <= n.lo < n.key < n.hi <= hi
    && (n.left != null ==> n.left in all && n.left.up == n && n.lo <= n.left.lo && n.left.hi <= n.key)
    && (n.right != null ==> n.right in all && n.right.up == n && n.key <= n.right.lo && n.right.hi <= n.hi)
    && (n.up == null ==> n == rt)
    && (n.up != null ==> n.up in all && (n.up.left == n || n.up.right == n))
  }

  // The nodes all form a search tree with root rt and keys between lo and hi.
  ghost predicate Tree(rt: Node?, all: set<Node>, lo: int, hi: int)
    reads all`left, all`right, all`up, all`lo, all`hi
  {
    && (rt == null <==> all == {})
    && (rt != null ==> rt in all && rt.up == null)
    && forall n {:trigger Linked(rt, all, lo, hi, n)} :: n in all ==> Linked(rt, all, lo, hi, n)
  }

  // Every node but the root is below one of its children.
  lemma {:induction false} Below(rt: Node, all: set<Node>, lo: int, hi: int, n: Node)
    requires Tree(rt, all, lo, hi) && n in all && n != rt
    ensures (rt.left != null && n.key < n.hi <= rt.left.hi <= rt.key) ||
      (rt.right != null && n.key > n.lo >= rt.right.lo >= rt.key)
    decreases (hi - lo) - (n.hi - n.lo)
  {
    assert Linked(rt, all, lo, hi, n) && Linked(rt, all, lo, hi, rt);
    assert Linked(rt, all, lo, hi, n.up);
    if n.up != rt { Below(rt, all, lo, hi, n.up); }
  }

  // The in-order traversal of the tree below n.
  ghost function InOrder(rt: Node?, all: set<Node>, lo: int, hi: int, n: Node?): seq<Node>
    requires Tree(rt, all, lo, hi) && (n != null ==> n in all)
    reads all`left, all`right, all`up, all`lo, all`hi
    decreases if n == null then 0 else n.hi - n.lo
  {
    if n == null then []
    else assert Linked(rt, all, lo, hi, n); InOrder(rt, all, lo, hi, n.left) + [n] + InOrder(rt, all, lo, hi, n.right)
  }

  ghost predicate Sorted(s: seq<Node>) {
    forall i, j :: 0 <= i < j < |s| ==> s[i].key < s[j].key
  }

  ghost predicate Between(s: seq<Node>, lo: int, hi: int) {
    forall i :: 0 <= i < |s| ==> lo < s[i].key < hi
  }

  ghost function Elements(s: seq<Node>): set<Node> { set n | n in s }

  lemma SortedJoin(l: seq<Node>, n: Node, r: seq<Node>, lo: int, hi: int)
    requires Sorted(l) && Sorted(r) && Between(l, lo, n.key) && Between(r, n.key, hi) && lo < n.key < hi
    ensures Sorted(l + [n] + r) && Between(l + [n] + r, lo, hi)
    ensures Elements(l + [n] + r) == Elements(l) + {n} + Elements(r)
  {
  }

  lemma BetweenWider(s: seq<Node>, lo: int, hi: int, lo': int, hi': int)
    requires Between(s, lo, hi) && lo' <= lo && hi <= hi'
    ensures Between(s, lo', hi')
  {
  }

  lemma {:induction false} Traverse(rt: Node?, all: set<Node>, lo: int, hi: int, n: Node?)
    requires Tree(rt, all, lo, hi) && (n != null ==> n in all)
    ensures var s := InOrder(rt, all, lo, hi, n);
      Sorted(s) && Elements(s) <= all && if n == null then s == [] else Between(s, n.lo, n.hi)
    decreases if n == null then 0 else n.hi - n.lo
  {
    if n != null {
      assert Linked(rt, all, lo, hi, n);
      Traverse(rt, all, lo, hi, n.left);
      Traverse(rt, all, lo, hi, n.right);
      var l, r := InOrder(rt, all, lo, hi, n.left), InOrder(rt, all, lo, hi, n.right);
      if n.left != null { BetweenWider(l, n.left.lo, n.left.hi, n.lo, n.key); }
      if n.right != null { BetweenWider(r, n.right.lo, n.right.hi, n.key, n.hi); }
      SortedJoin(l, n, r, n.lo, n.hi);
    }
  }

  lemma {:induction false} Climb(rt: Node, all: set<Node>, lo: int, hi: int, m: Node)
    requires Tree(rt, all, lo, hi) && m in all
    ensures m in Elements(InOrder(rt, all, lo, hi, m))
    ensures Elements(InOrder(rt, all, lo, hi, m)) <= Elements(InOrder(rt, all, lo, hi, rt))
    decreases (hi - lo) - (m.hi - m.lo)
  {
    assert Linked(rt, all, lo, hi, m);
    if m.up != null {
      assert Linked(rt, all, lo, hi, m.up);
      Climb(rt, all, lo, hi, m.up);
    }
  }

  // A set of nodes can be listed in key order in only one way.
  lemma {:induction false} SortedUnique(s: seq<Node>, t: seq<Node>)
    requires Sorted(s) && Sorted(t) && Elements(s) == Elements(t)
    ensures s == t
  {
    if s == [] {
      assert forall i :: 0 <= i < |t| ==> t[i] in Elements(t);
    } else {
      assert s[0] in Elements(s);
      assert t[0] in Elements(t);
      assert s == [s[0]] + s[1..] && t == [t[0]] + t[1..];
      assert s[0] !in s[1..] && t[0] !in t[1..];
      assert Elements(s[1..]) == Elements(s) - {s[0]} && Elements(t[1..]) == Elements(t) - {t[0]};
      SortedUnique(s[1..], t[1..]);
    }
  }

  // As Linked, for the tree a on one side of the root rt, with root top.
  ghost predicate SideLinked(rt: Node, top: Node?, a: set<Node>, lo: int, hi: int, n: Node)
    reads a`left, a`right, a`up, a`lo, a`hi
    requires n in a
  {
    && lo <= n.lo < n.key < n.hi <= hi && n.up != null
    && (n.left != null ==> n.left in a && n.left.up == n && n.left != top && n.lo <= n.left.lo && n.left.hi <= n.key)
    && (n.right != null ==>
          n.right in a && n.right.up == n && n.right != top && n.key <= n.right.lo && n.right.hi <= n.hi)
    && (n.up == rt ==> n == top)
    && (n.up != rt ==> n != top && n.up in a && (n.up.left == n || n.up.right == n))
  }

  ghost function Lesser(rt: Node, all: set<Node>): set<Node> { set n | n in all && n.key < rt.key }

  ghost function Greater(rt: Node, all: set<Node>): set<Node> { set n | n in all && n.key > rt.key }

  lemma LeftSide(rt: Node, all: set<Node>, lo: int, hi: int, n: Node)
    requires Tree(rt, all, lo, hi) && n in Lesser(rt, all)
    ensures SideLinked(rt, rt.left, Lesser(rt, all), lo, hi, n)
  {
    assert Linked(rt, all, lo, hi, n) && Linked(rt, all, lo, hi, rt);
    Below(rt, all, lo, hi, n);
    if n.up != rt { Below(rt, all, lo, hi, n.up); assert Linked(rt, all, lo, hi, n.up); }
    if n.left != null { Below(rt, all, lo, hi, n.left); assert Linked(rt, all, lo, hi, n.left); }
    if n.right != null { Below(rt, all, lo, hi, n.right); assert Linked(rt, all, lo, hi, n.right); }
  }

  lemma RightSide(rt: Node, all: set<Node>, lo: int, hi: int, n: Node)
    requires Tree(rt, all, lo, hi) && n in Greater(rt, all)
    ensures SideLinked(rt, rt.right, Greater(rt, all), lo, hi, n)
  {
    assert Linked(rt, all, lo, hi, n) && Linked(rt, all, lo, hi, rt);
    Below(rt, all, lo, hi, n);
    if n.up != rt { Below(rt, all, lo, hi, n.up); assert Linked(rt, all, lo, hi, n.up); }
    if n.left != null { Below(rt, all, lo, hi, n.left); assert Linked(rt, all, lo, hi, n.left); }
    if n.right != null { Below(rt, all, lo, hi, n.right); assert Linked(rt, all, lo, hi, n.right); }
  }

  lemma Halves(rt: Node, all: set<Node>, lo: int, hi: int)
    requires Tree(rt, all, lo, hi)
    ensures all == Lesser(rt, all) + Greater(rt, all) + {rt}
    ensures (if rt.left == null then Lesser(rt, all) == {} else rt.left in Lesser(rt, all))
    ensures (if rt.right == null then Greater(rt, all) == {} else rt.right in Greater(rt, all))
    ensures forall n {:trigger SideLinked(rt, rt.left, Lesser(rt, all), lo, hi, n)} :: n in Lesser(rt, all) ==>
      SideLinked(rt, rt.left, Lesser(rt, all), lo, hi, n)
    ensures forall n {:trigger SideLinked(rt, rt.right, Greater(rt, all), lo, hi, n)} :: n in Greater(rt, all) ==>
      SideLinked(rt, rt.right, Greater(rt, all), lo, hi, n)
  {
    assert Linked(rt, all, lo, hi, rt);
    if rt.left != null { assert Linked(rt, all, lo, hi, rt.left); }
    if rt.right != null { assert Linked(rt, all, lo, hi, rt.right); }
    forall n | n in all && n != rt
      ensures n.key != rt.key && (if n.key < rt.key then rt.left != null else rt.right != null)
    {
      Below(rt, all, lo, hi, n);
    }
    forall n | n in Lesser(rt, all) ensures SideLinked(rt, rt.left, Lesser(rt, all), lo, hi, n) {
      LeftSide(rt, all, lo, hi, n);
    }
    forall n | n in Greater(rt, all) ensures SideLinked(rt, rt.right, Greater(rt, all), lo, hi, n) {
      RightSide(rt, all, lo, hi, n);
    }
  }

  lemma Wider(rt: Node?, all: set<Node>, lo: int, hi: int, lo': int, hi': int)
    requires Tree(rt, all, lo, hi) && lo' <= lo && hi <= hi'
    ensures Tree(rt, all, lo', hi')
  {
    forall n | n in all ensures Linked(rt, all, lo', hi', n) { assert Linked(rt, all, lo, hi, n); }
  }

  // The places of a splay in progress: the local variables __node, __left and __right, and the nodes
  // on the right spine of the left tree and on the left spine of the right tree.
  datatype Work = Work(node: Node, left: Node, right: Node, ls: set<Node>, rs: set<Node>, lo: int, hi: int)

  // As Linked, but __left->right and __right->left are not in use and the spines are known.
  ghost predicate Parted(w: Work, rt: Node, all: set<Node>, n: Node)
    reads rt`lo, rt`hi, w.node`left, w.node`right, all`left, all`right, all`up, all`lo, all`hi
    requires n in all
  {
    && w.lo <= n.lo < n.key < n.hi <= w.hi
    && (n != w.right && n.left != null ==>
          && n.left in all && n.left.up == n && n.lo <= n.left.lo && n.left.hi <= n.key
          && n.left !in w.ls && (n.left in w.rs <==> n in w.rs))
    && (n != w.left && n.right != null ==>
          && n.right in all && n.right.up == n && n.key <= n.right.lo && n.right.hi <= n.hi
          && n.right !in w.rs && (n.right in w.ls <==> n in w.ls))
    && (n.up == null ==> n == rt || (n in w.ls && n == w.node.right) || (n in w.rs && n == w.node.left))
    && (n.up != null ==>
          n.up in all && ((n.up != w.right && n.up.left == n) || (n.up != w.left && n.up.right == n)))
    && (n in w.ls ==> n.key <= rt.lo && rt.hi <= n.hi)
    && (n in w.rs ==> rt.hi <= n.key && n.lo <= rt.lo)
  }

  ghost predicate Parts(w: Work, rt: Node, all: set<Node>)
    reads rt`lo, rt`hi, rt`up, w.node`left, w.node`right, all`left, all`right, all`up, all`lo, all`hi
  {
    && rt in all && rt.up == null && rt !in w.ls && rt !in w.rs && w.ls !! w.rs
    && w.ls <= all && w.rs <= all && w.node !in all
    && (if w.ls == {} then w.left == w.node && w.node.right == null
        else w.left in w.ls && w.node.right != null && w.node.right in w.ls && w.node.right.up == null)
    && (if w.rs == {} then w.right == w.node && w.node.left == null
        else w.right in w.rs && w.node.left != null && w.node.left in w.rs && w.node.left.up == null)
    && forall n {:trigger Parted(w, rt, all, n)} :: n in all ==> Parted(w, rt, all, n)
  }

  // The nodes on neither spine are below the root, or left of a or right of b if the root's children are.
  lemma {:induction false} OffSpine(w: Work, rt: Node, all: set<Node>, a: int, b: int, n: Node)
    requires Parts(w, rt, all) && rt.lo <= a && b <= rt.hi && n in all && n != rt && n !in w.ls && n !in w.rs
    requires Parted(w, rt, all, rt) && (rt.left != null ==> rt.left.hi <= a) && (rt.right != null ==> b <= rt.right.lo)
    ensures n.hi <= a || b <= n.lo
    decreases (w.hi - w.lo) - (n.hi - n.lo)
  {
    assert Parted(w, rt, all, n);
    assert Parted(w, rt, all, n.up);
    if n.up !in w.ls && n.up !in w.rs && n.up != rt { OffSpine(w, rt, all, a, b, n.up); }
  }

  // As Linked, but a child of the root, and the nodes below it, need only be on the right side.
  ghost predicate Knitted(rt: Node, all: set<Node>, lo: int, hi: int, a: int, b: int, n: Node)
    reads all`left, all`right, all`up, all`lo, all`hi
    requires n in all
  {
    && lo <= n.lo < n.key < n.hi <= hi
    && (n != rt ==> if n.key < rt.key then n.key < a else b < n.key)
    && KnitLeft(rt, all, n) && KnitRight(rt, all, n) && Hung(rt, all, n)
  }

  ghost predicate KnitLeft(rt: Node, all: set<Node>, n: Node)
    reads n`left, n`lo, all`up, all`lo, all`hi
  {
    n.left != null ==>
      && n.left in all && n.left.up == n
      && (if n == rt then n.left.key < n.key
          else n.lo <= n.left.lo && n.left.hi <= n.key && (n.left.key < rt.key <==> n.key < rt.key))
  }

  ghost predicate KnitRight(rt: Node, all: set<Node>, n: Node)
    reads n`right, n`hi, all`up, all`lo, all`hi
  {
    n.right != null ==>
      && n.right in all && n.right.up == n
      && (if n == rt then n.key < n.right.key
          else n.key <= n.right.lo && n.right.hi <= n.hi && (n.right.key < rt.key <==> n.key < rt.key))
  }

  ghost predicate Hung(rt: Node, all: set<Node>, n: Node)
    reads n`up, all`left, all`right
  {
    (n.up == null ==> n == rt) && (n.up != null ==> n.up in all && (n.up.left == n || n.up.right == n))
  }

  ghost predicate Sided(w: Work, rt: Node, a: int, b: int, n: Node)
    reads n`lo, n`hi
  {
    || n == rt || (n in w.ls && n.key < a) || (n in w.rs && b < n.key)
    || (n !in w.ls && n !in w.rs && (n.hi <= a || b <= n.lo))
  }

  // What SPLAY_ASSEMBLE makes of node n.
  twostate predicate Fastened(w: Work, rt: Node, n: Node)
    reads n
  {
    && n.left == (if n == rt then (if w.ls == {} then old(rt.left) else old(w.node.right))
                  else if n == w.right then old(rt.right) else old(n.left))
    && n.right == (if n == rt then (if w.rs == {} then old(rt.right) else old(w.node.left))
                   else if n == w.left then old(rt.left) else old(n.right))
    && n.up == (if n == old(rt.left) && w.ls != {} then w.left
                else if n == old(rt.right) && w.rs != {} then w.right
                else if (n == old(w.node.right) && w.ls != {}) || (n == old(w.node.left) && w.rs != {}) then rt
                else old(n.up))
    && n.lo == old(n.lo) && n.hi == old(n.hi)
  }

  datatype Stitch = Stitch(w: Work, rt: Node, all: set<Node>, a: int, b: int, n: Node)

  twostate lemma HungAt(s: Stitch)
    requires old(Parts(s.w, s.rt, s.all)) && s.n in s.all && s.a <= s.rt.key <= s.b
    requires forall m {:trigger Fastened(s.w, s.rt, m)} :: m in s.all ==> Fastened(s.w, s.rt, m)
    requires forall m {:trigger old(Sided(s.w, s.rt, s.a, s.b, m))} :: m in s.all ==> old(Sided(s.w, s.rt, s.a, s.b, m))
    ensures Hung(s.rt, s.all, s.n)
  {
    var w, rt, all, n := s.w, s.rt, s.all, s.n;
    assert Fastened(w, rt, n) && old(Parted(w, rt, all, n)) && old(Parted(w, rt, all, rt)) &&
      old(Sided(w, rt, s.a, s.b, n));
    var u := n.up;
    if u != null { assert old(Parted(w, rt, all, u)) && Fastened(w, rt, u); }
  }

  twostate lemma KnitLeftAt(s: Stitch)
    requires old(Parts(s.w, s.rt, s.all)) && s.n in s.all && s.a <= s.rt.key <= s.b
    requires forall m {:trigger Fastened(s.w, s.rt, m)} :: m in s.all ==> Fastened(s.w, s.rt, m)
    requires forall m {:trigger old(Sided(s.w, s.rt, s.a, s.b, m))} :: m in s.all ==> old(Sided(s.w, s.rt, s.a, s.b, m))
    ensures KnitLeft(s.rt, s.all, s.n)
  {
    var w, rt, all, n := s.w, s.rt, s.all, s.n;
    assert Fastened(w, rt, n) && old(Parted(w, rt, all, n)) && old(Parted(w, rt, all, rt)) &&
      old(Sided(w, rt, s.a, s.b, n));
    var l := n.left;
    if l != null { assert old(Parted(w, rt, all, l)) && old(Sided(w, rt, s.a, s.b, l)) && Fastened(w, rt, l); }
  }

  twostate lemma KnitRightAt(s: Stitch)
    requires old(Parts(s.w, s.rt, s.all)) && s.n in s.all && s.a <= s.rt.key <= s.b
    requires forall m {:trigger Fastened(s.w, s.rt, m)} :: m in s.all ==> Fastened(s.w, s.rt, m)
    requires forall m {:trigger old(Sided(s.w, s.rt, s.a, s.b, m))} :: m in s.all ==> old(Sided(s.w, s.rt, s.a, s.b, m))
    ensures KnitRight(s.rt, s.all, s.n)
  {
    var w, rt, all, n := s.w, s.rt, s.all, s.n;
    assert Fastened(w, rt, n) && old(Parted(w, rt, all, n)) && old(Parted(w, rt, all, rt)) &&
      old(Sided(w, rt, s.a, s.b, n));
    var r := n.right;
    if r != null { assert old(Parted(w, rt, all, r)) && old(Sided(w, rt, s.a, s.b, r)) && Fastened(w, rt, r); }
  }

  twostate lemma KnittedAt(s: Stitch)
    requires old(Parts(s.w, s.rt, s.all)) && s.n in s.all && s.a <= s.rt.key <= s.b
    requires forall m {:trigger Fastened(s.w, s.rt, m)} :: m in s.all ==> Fastened(s.w, s.rt, m)
    requires forall m {:trigger old(Sided(s.w, s.rt, s.a, s.b, m))} :: m in s.all ==> old(Sided(s.w, s.rt, s.a, s.b, m))
    ensures Knitted(s.rt, s.all, s.w.lo, s.w.hi, s.a, s.b, s.n)
  {
    var w, rt, all, n := s.w, s.rt, s.all, s.n;
    assert Fastened(w, rt, n) && old(Parted(w, rt, all, n)) && old(Parted(w, rt, all, rt)) &&
      old(Sided(w, rt, s.a, s.b, n));
    HungAt(s);
    KnitLeftAt(s);
    KnitRightAt(s);
  }

  lemma AllSided(w: Work, rt: Node, all: set<Node>, a: int, b: int)
    requires Parts(w, rt, all) && rt.lo < a <= b < rt.hi
    requires (rt.left != null ==> rt.left.hi <= a) && (rt.right != null ==> b <= rt.right.lo)
    ensures forall n {:trigger Sided(w, rt, a, b, n)} :: n in all ==> Sided(w, rt, a, b, n)
  {
    assert Parted(w, rt, all, rt);
    forall n | n in all ensures Sided(w, rt, a, b, n) {
      assert Parted(w, rt, all, n);
      if n != rt && n !in w.ls && n !in w.rs { OffSpine(w, rt, all, a, b, n); }
    }
  }

  // Node n while SPLAY_LINKRIGHT hands the root rt to the left tree.
  datatype Link = Link(w: Work, rt: Node, all: set<Node>, n: Node)

  twostate predicate SlidRight(k: Link, m: Node)
    reads m
  {
    && m.left == old(m.left) && m.right == (if m == k.w.left then k.rt else old(m.right))
    && m.up == (if m == old(k.rt.right) then null
                else if m == k.rt then (if k.w.left == k.w.node then null else k.w.left) else old(m.up))
    && m.lo == (if m == old(k.rt.right) then k.rt.key else old(m.lo))
    && m.hi == (if m == old(k.rt.right) then old(k.rt.hi) else old(m.hi))
  }

  twostate lemma SlidRightAt(k: Link)
    requires old(Parts(k.w, k.rt, k.all)) && old(k.rt.right) != null && k.n in k.all
    requires k.w.node.left == old(k.w.node.left)
    requires k.w.node.right == if k.w.left == k.w.node then k.rt else old(k.w.node.right)
    requires forall m {:trigger SlidRight(k, m)} :: m in k.all ==> SlidRight(k, m)
    ensures Parted(k.w.(left := k.rt, ls := k.w.ls + {k.rt}), old(k.rt.right), k.all, k.n)
  {
    var w, rt, all, n := k.w, k.rt, k.all, k.n;
    assert old(Parted(w, rt, all, rt)) && old(Parted(w, rt, all, rt.right)) && old(Parted(w, rt, all, n));
    assert SlidRight(k, n) && SlidRight(k, rt) && SlidRight(k, old(rt.right));
    if n.left != null { assert n.left in all ==> SlidRight(k, n.left); }
    if n.right != null { assert n.right in all ==> SlidRight(k, n.right); }
    if n.up != null { assert n.up in all ==> SlidRight(k, n.up); }
  }

  // The nodes whose pointers SPLAY_ASSEMBLE changes are different ones.
  lemma Places(w: Work, rt: Node, all: set<Node>)
    requires Parts(w, rt, all)
    ensures w.node !in all && rt in all && rt !in w.ls && rt !in w.rs && w.ls !! w.rs && w.ls <= all && w.rs <= all
    ensures rt.left != null ==>
      rt.left in all && rt.left !in w.ls && rt.left !in w.rs && rt.left != rt && rt.left != rt.right
    ensures rt.right != null ==> rt.right in all && rt.right !in w.ls && rt.right !in w.rs && rt.right != rt
    ensures if w.ls == {} then w.left == w.node && w.node.right == null else w.left in w.ls && w.node.right in w.ls
    ensures if w.rs == {} then w.right == w.node && w.node.left == null else w.right in w.rs && w.node.left in w.rs
  {
    assert Parted(w, rt, all, rt);
    if rt.left != null { assert Parted(w, rt, all, rt.left); }
    if rt.right != null { assert Parted(w, rt, all, rt.right); }
  }

  class SplayTree {
    var root: Node?
    ghost var nodes: set<Node>
    ghost var lo: int
    ghost var hi: int

    ghost predicate Valid()
      reads this, nodes
    {
      Tree(root, nodes, lo, hi)
    }

    ghost function Order(): seq<Node>
      requires Valid()
      reads this, nodes
    {
      InOrder(root, nodes, lo, hi, root)
    }

    // The traversal lists all nodes in key order.
    lemma OrderSorted()
      requires Valid()
      ensures Sorted(Order()) && Elements(Order()) == nodes
    {
      Traverse(root, nodes, lo, hi, root);
      if root != null {
        forall n | n in nodes ensures n in Elements(Order()) { Climb(root, nodes, lo, hi, n); }
      }
    }

    // SPLAY_ROTATE_RIGHT
    method TurnRight(tmp: Node)
      requires root != null && tmp != root && tmp.right != root && tmp.right != tmp
      modifies this`root, root`left, root`up, root`lo, tmp`right, tmp`up, tmp`lo, tmp`hi, Real(tmp.right)`up
      ensures root == tmp && tmp.right == old(root) && tmp.up == null && tmp.lo == old(root.lo) &&
        tmp.hi == old(root.hi)
      ensures old(root).left == old(tmp.right) && old(root).up == tmp && old(root).lo == tmp.key
      ensures old(tmp.right) != null ==> old(tmp.right).up == old(root)
    {
      ghost var x := root;
      root.left := tmp.right;
      tmp.right := root;
      root := tmp;
      if x.left != null { x.left.up := x; }
      x.up, tmp.up := tmp, null;
      tmp.lo, tmp.hi, x.lo := x.lo, x.hi, tmp.key;
    }

    method RotateRight(tmp: Node, ghost w: Work)
      requires root != null && Parts(w, root, nodes) && root.left == tmp
      modifies this`root, nodes`left, nodes`right, nodes`up, nodes`lo, nodes`hi
      ensures root == tmp && Parts(w, root, nodes)
      ensures root.lo == old(root.lo) && root.hi == old(root.hi)
    {
      hide Tree;
      ghost var x := root;
      assert Parted(w, x, nodes, x) && Parted(w, x, nodes, tmp);
      if tmp.right != null { assert Parted(w, x, nodes, tmp.right); }
      TurnRight(tmp);
      forall n | n in nodes ensures Parted(w, tmp, nodes, n) {
        assert old(Parted(w, root, nodes, n));
      }
    }

    // SPLAY_ROTATE_LEFT
    method TurnLeft(tmp: Node)
      requires root != null && tmp != root && tmp.left != root && tmp.left != tmp
      modifies this`root, root`right, root`up, root`hi, tmp`left, tmp`up, tmp`lo, tmp`hi, Real(tmp.left)`up
      ensures root == tmp && tmp.left == old(root) && tmp.up == null && tmp.lo == old(root.lo) && tmp.hi == old(root.hi)
      ensures old(root).right == old(tmp.left) && old(root).up == tmp && old(root).hi == tmp.key
      ensures old(tmp.left) != null ==> old(tmp.left).up == old(root)
    {
      ghost var x := root;
      root.right := tmp.left;
      tmp.left := root;
      root := tmp;
      if x.right != null { x.right.up := x; }
      x.up, tmp.up := tmp, null;
      tmp.lo, tmp.hi, x.hi := x.lo, x.hi, tmp.key;
    }

    method RotateLeft(tmp: Node, ghost w: Work)
      requires root != null && Parts(w, root, nodes) && root.right == tmp
      modifies this`root, nodes`left, nodes`right, nodes`up, nodes`lo, nodes`hi
      ensures root == tmp && Parts(w, root, nodes)
      ensures root.lo == old(root.lo) && root.hi == old(root.hi)
    {
      hide Tree;
      ghost var x := root;
      assert Parted(w, x, nodes, x) && Parted(w, x, nodes, tmp);
      if tmp.left != null { assert Parted(w, x, nodes, tmp.left); }
      TurnLeft(tmp);
      forall n | n in nodes ensures Parted(w, tmp, nodes, n) {
        assert old(Parted(w, root, nodes, n));
      }
    }

    // SPLAY_LINKLEFT
    method HangLeft(right: Node, ghost node: Node) returns (tmp: Node)
      requires root != null && root.left != null && root.left != root && root != right && right != root.left &&
        node != root
      modifies this`root, right`left, root`up, root.left`up, root.left`lo, root.left`hi
      ensures root == old(root.left) && tmp == old(root) && right.left == tmp
      ensures root.up == null && root.lo == old(root.lo) && root.hi == old(root.key)
      ensures tmp.up == if right == node then null else right
    {
      ghost var x := root;
      right.left := root;
      tmp := root;
      root := root.left;
      root.up, x.up := null, if right == node then null else right;
      root.lo, root.hi := x.lo, x.key;
    }

    method LinkLeft(right: Node, ghost w: Work) returns (tmp: Node, ghost w': Work)
      requires root != null && Parts(w, root, nodes) && root.left != null && right == w.right
      modifies this`root, w.node`left, nodes`left, nodes`up, nodes`lo, nodes`hi
      ensures tmp == old(root) && root != null && root == old(root.left) && w' == w.(right := tmp, rs := w.rs + {tmp})
      ensures Parts(w', root, nodes) && root.lo == old(root.lo) && root.hi == old(root.key) < old(root.hi)
    {
      hide Tree;
      ghost var x := root;
      assert Parted(w, x, nodes, x) && Parted(w, x, nodes, x.left);
      tmp := HangLeft(right, w.node);
      w' := w.(right := tmp, rs := w.rs + {tmp});
      forall n | n in nodes ensures Parted(w', root, nodes, n) {
        assert old(Parted(w, root, nodes, n));
      }
    }

    // SPLAY_LINKRIGHT
    method HangRight(left: Node, ghost node: Node) returns (tmp: Node)
      requires root != null && root.right != null && root.right != root && root != left && left != root.right &&
        node != root
      modifies this`root, left`right, root`up, root.right`up, root.right`lo, root.right`hi
      ensures root == old(root.right) && tmp == old(root) && left.right == tmp
      ensures root.up == null && root.lo == old(root.key) && root.hi == old(root.hi)
      ensures tmp.up == if left == node then null else left
    {
      ghost var x := root;
      left.right := root;
      tmp := root;
      root := root.right;
      root.up, x.up := null, if left == node then null else left;
      root.lo, root.hi := x.key, x.hi;
    }

    method LinkRight(left: Node, ghost w: Work) returns (tmp: Node, ghost w': Work)
      requires root != null && Parts(w, root, nodes) && root.right != null && left == w.left
      modifies this`root, w.node`right, nodes`right, nodes`up, nodes`lo, nodes`hi
      ensures tmp == old(root) && root != null && root == old(root.right) && w' == w.(left := tmp, ls := w.ls + {tmp})
      ensures Parts(w', root, nodes) && root.hi == old(root.hi) && root.lo == old(root.key) > old(root.lo)
    {
      hide Tree;
      ghost var x := root;
      assert Parted(w, x, nodes, x) && Parted(w, x, nodes, x.right);
      tmp := HangRight(left, w.node);
      w' := w.(left := tmp, ls := w.ls + {tmp});
      forall n | n in nodes ensures Parted(w', root, nodes, n) { SlidRightAt(Link(w, x, nodes, n)); }
    }

    // SPLAY_ASSEMBLE
    method Fasten(node: Node, left: Node, right: Node, ghost w: Work)
      requires root != null && Parts(w, root, nodes) && w.node == node && w.left == left && w.right == right
      modifies node`left, node`right, nodes`left, nodes`right, nodes`up
      ensures forall n {:trigger Fastened(w, root, n)} :: n in nodes ==> Fastened(w, root, n)
    {
      ghost var l, r, nl, nr := root.left, root.right, node.left, node.right;
      Places(w, root, nodes);
      hide Parts, Parted;
      left.right := root.left;
      right.left := root.right;
      root.left := node.right;
      root.right := node.left;
      SetUps(node, left, right, l, r, nl, nr);
    }

    // The new parents, which the C code has no field for.
    ghost method SetUps(node: Node, left: Node, right: Node, l: Node?, r: Node?, nl: Node?, nr: Node?)
      requires root != null && (l != null ==> l in nodes && l !in {r, nl, nr}) &&
        (r != null ==> r in nodes && r !in {nl, nr})
      requires (left != node ==> nr != null && nr in nodes) && (right != node ==> nl != null && nl in nodes && nl != nr)
      modifies nodes`up
      ensures forall n :: n in nodes ==>
        n.up == (if n == l && left != node then left
                 else if n == r && right != node then right
                 else if (n == nr && left != node) || (n == nl && right != node) then root
                 else old(n.up))
    {
      if left != node {
        if l != null { l.up := left; }
        nr.up := root;
      }
      if right != node {
        if r != null { r.up := right; }
        nl.up := root;
      }
    }

    // Before the intervals are narrowed: left of the root all keys are below a, right of it above b.
    method Knit(node: Node, left: Node, right: Node, ghost w: Work, ghost a: int, ghost b: int)
      requires root != null && Parts(w, root, nodes) && w.node == node && w.left == left && w.right == right
      requires root.lo < a <= root.key <= b < root.hi
      requires (root.left != null ==> root.left.hi <= a) && (root.right != null ==> b <= root.right.lo)
      modifies node`left, node`right, nodes`left, nodes`right, nodes`up
      ensures root.up == null
      ensures forall n {:trigger Knitted(root, nodes, w.lo, w.hi, a, b, n)} :: n in nodes ==>
        Knitted(root, nodes, w.lo, w.hi, a, b, n)
    {
      AllSided(w, root, nodes, a, b);
      Fasten(node, left, right, w);
      forall n | n in nodes ensures Knitted(root, nodes, w.lo, w.hi, a, b, n) {
        KnittedAt(Stitch(w, root, nodes, a, b, n));
      }
      assert Fastened(w, root, root) && old(Parted(w, root, nodes, root));
    }

    // The intervals of the nodes left of the root end at a, those of the nodes right of it begin at b.
    ghost method Narrow(a: int, b: int)
      requires root != null && root in nodes && root.up == null && lo < a <= root.key <= b < hi
      requires forall n {:trigger Knitted(root, nodes, lo, hi, a, b, n)} :: n in nodes ==>
        Knitted(root, nodes, lo, hi, a, b, n)
      modifies nodes`lo, nodes`hi
      ensures Valid() && root.lo == lo && root.hi == hi
      ensures (root.left != null ==> root.left.hi <= a) && (root.right != null ==> b <= root.right.lo)
    {
      hide Parts;
      forall n | n in nodes { n.hi := if n == root then hi else if n.key < root.key && a < n.hi then a else n.hi; }
      forall n | n in nodes { n.lo := if n == root then lo else if n.key > root.key && b > n.lo then b else n.lo; }
      assert old(Knitted(root, nodes, lo, hi, a, b, root));
      forall n | n in nodes ensures Linked(root, nodes, lo, hi, n) {
        assert old(Knitted(root, nodes, lo, hi, a, b, n));
        if n.left != null { assert old(Knitted(root, nodes, lo, hi, a, b, n.left)); }
        if n.right != null { assert old(Knitted(root, nodes, lo, hi, a, b, n.right)); }
      }
    }

    method Assemble(node: Node, left: Node, right: Node, ghost w: Work, ghost a: int, ghost b: int)
      requires root != null && Parts(w, root, nodes) && w.node == node && w.left == left && w.right == right &&
        w.lo == lo && w.hi == hi
      requires root.lo < a <= root.key <= b < root.hi
      requires (root.left != null ==> root.left.hi <= a) && (root.right != null ==> b <= root.right.lo)
      modifies node`left, node`right, nodes`left, nodes`right, nodes`up, nodes`lo, nodes`hi
      ensures Valid() && root.lo == lo && root.hi == hi
      ensures (root.left != null ==> root.left.hi <= a) && (root.right != null ==> b <= root.right.lo)
    {
      assert Parted(w, root, nodes, root);
      Knit(node, left, right, w, a, b);
      Narrow(a, b);
    }

    // The invariant of the loop: the key e is between the left tree and the right tree.
    ghost predicate Searching(w: Work, e: int)
      reads this, nodes, w.node
    {
      root != null && root in nodes && w.lo == lo && w.hi == hi && Parts(w, root, nodes) && root.lo < e < root.hi
    }

    // __left = __right = &__node
    method Begin(ghost e: int) returns (node: Node, ghost w: Work)
      requires Valid() && root != null
      modifies this`lo, this`hi, nodes`lo, nodes`hi
      ensures fresh(node) && w.node == w.left == w.right == node && Searching(w, e)
      ensures lo <= old(lo) && old(hi) <= hi
    {
      node := new Node(0);
      lo := if e - 1 < lo then e - 1 else lo;
      hi := if e + 1 > hi then e + 1 else hi;
      root.lo, root.hi := lo, hi;
      w := Work(node, node, node, {}, {}, lo, hi);
      forall n | n in nodes ensures Parted(w, root, nodes, n) {
        assert old(Linked(root, nodes, lo, hi, n));
      }
    }

    // Brings a node with the key of elm to the root, or a neighbour of it if there is none; the
    // traversal stays the same.
    method Splay(elm: Node)
      requires Valid() && root != null
      modifies this`root, this`lo, this`hi, nodes`left, nodes`right, nodes`up, nodes`lo, nodes`hi
      ensures Valid() && root != null && root.lo == lo < elm.key < hi == root.hi
      ensures lo <= old(lo) && old(hi) <= hi
      ensures (root.left != null ==> root.left.hi <= elm.key) && (root.right != null ==> elm.key <= root.right.lo)
      ensures forall n {:trigger n.key} :: n in nodes && n != root ==>
        n.key != elm.key && (n.key < root.key <==> n.key < elm.key)
      ensures Order() == old(Order())
    {
      ghost var before := Order();
      OrderSorted();
      TopDown(elm);
      Splayed(elm.key);
      OrderSorted();
      SortedUnique(before, Order());
    }

    // A turn of the loop with __comp < 0 ...
    method StepLeft(e: int, right0: Node, ghost w0: Work) returns (stop: bool, right: Node, ghost w: Work)
      requires Searching(w0, e) && e < root.key && w0.right == right0
      modifies this`root, w0.node`left, nodes`left, nodes`right, nodes`up, nodes`lo, nodes`hi
      ensures Searching(w, e) && w.node == w0.node && w.left == w0.left && w.right == right
      ensures if stop then e < root.key && root.left == null else root.hi - root.lo < old(root.hi - root.lo)
    {
      right, w, stop := right0, w0, true;
      var tmp := root.left;
      if tmp == null { return; }
      if e < tmp.key {
        RotateRight(tmp, w);
        if root.left == null { return; }
      }
      stop := false;
      right, w := LinkLeft(right, w);
    }

    // ... and with __comp > 0.
    method StepRight(e: int, left0: Node, ghost w0: Work) returns (stop: bool, left: Node, ghost w: Work)
      requires Searching(w0, e) && e > root.key && w0.left == left0
      modifies this`root, w0.node`right, nodes`left, nodes`right, nodes`up, nodes`lo, nodes`hi
      ensures Searching(w, e) && w.node == w0.node && w.left == left && w.right == w0.right
      ensures if stop then e > root.key && root.right == null else root.hi - root.lo < old(root.hi - root.lo)
    {
      left, w, stop := left0, w0, true;
      var tmp := root.right;
      if tmp == null { return; }
      if e > tmp.key {
        RotateLeft(tmp, w);
        if root.right == null { return; }
      }
      stop := false;
      left, w := LinkRight(left, w);
    }

    method TopDown(elm: Node)
      requires Valid() && root != null
      modifies this`root, this`lo, this`hi, nodes`left, nodes`right, nodes`up, nodes`lo, nodes`hi
      ensures Valid() && root != null && root.lo == lo < elm.key < hi == root.hi
      ensures lo <= old(lo) && old(hi) <= hi
      ensures (root.left != null ==> root.left.hi <= elm.key) && (root.right != null ==> elm.key <= root.right.lo)
    {
      var node; ghost var w;
      node, w := Begin(elm.key);
      var left, right := node, node;
      while elm.key != root.key
        invariant Searching(w, elm.key) && fresh(node) && w.node == node && w.left == left && w.right == right
        invariant lo <= old(lo) && old(hi) <= hi
        decreases root.hi - root.lo
      {
        var stop;
        if elm.key < root.key {
          stop, right, w := StepLeft(elm.key, right, w);
        } else {
          stop, left, w := StepRight(elm.key, left, w);
        }
        if stop { break; }
      }
      assert Parted(w, root, nodes, root);
      Assemble(node, left, right, w, if elm.key < root.key then elm.key else root.key,
               if elm.key < root.key then root.key else elm.key);
    }

    // What is known about the other nodes after a splay for key e.
    lemma Splayed(e: int)
      requires Valid() && root != null
      requires (root.left != null ==> root.left.hi <= e) && (root.right != null ==> e <= root.right.lo)
      ensures forall n {:trigger n.key} :: n in nodes && n != root ==> n.key != e && (n.key < root.key <==> n.key < e)
    {
      forall n | n in nodes && n != root ensures n.key != e && (n.key < root.key <==> n.key < e) {
        Below(root, nodes, lo, hi, n);
      }
    }

    // SPLAY_MINMAX: brings the least (comp < 0) or the greatest node to the root.
    method MinMax(comp: int)
      requires Valid() && root != null && comp != 0
      modifies this`root, this`lo, this`hi, nodes`left, nodes`right, nodes`up, nodes`lo, nodes`hi
      ensures Valid() && root != null && root in nodes
      ensures forall n :: n in nodes && n != root ==> if comp < 0 then root.key < n.key else n.key < root.key
      ensures Order() == old(Order())
    {
      ghost var before := Order();
      OrderSorted();
      Outermost(comp);
      OrderSorted();
      SortedUnique(before, Order());
    }

    // A turn of the loop: a step to the left, or to the right.
    method StepOut(comp: int, ghost e: int, left0: Node, right0: Node, ghost w0: Work)
      returns (stop: bool, left: Node, right: Node, ghost w: Work)
      requires Searching(w0, e) && w0.left == left0 && w0.right == right0
      requires forall n :: n in nodes ==> if comp < 0 then e < n.key else n.key < e
      modifies this`root, w0.node`left, w0.node`right, nodes`left, nodes`right, nodes`up, nodes`lo, nodes`hi
      ensures Searching(w, e) && w.node == w0.node && w.left == left && w.right == right
      ensures if stop then (if comp < 0 then root.left == null else root.right == null)
              else root.hi - root.lo < old(root.hi - root.lo)
    {
      left, right, w, stop := left0, right0, w0, true;
      if comp < 0 {
        var tmp := root.left;
        if tmp == null { return; }
        RotateRight(tmp, w);
        if root.left == null { return; }
        right, w := LinkLeft(right, w);
      } else {
        var tmp := root.right;
        if tmp == null { return; }
        RotateLeft(tmp, w);
        if root.right == null { return; }
        left, w := LinkRight(left, w);
      }
      stop := false;
    }

    method Outermost(comp: int)
      requires Valid() && root != null && comp != 0
      modifies this`root, this`lo, this`hi, nodes`left, nodes`right, nodes`up, nodes`lo, nodes`hi
      ensures Valid() && root != null && root in nodes
      ensures forall n :: n in nodes && n != root ==> if comp < 0 then root.key < n.key else n.key < root.key
    {
      ghost var e := if comp < 0 then lo else hi;
      hide Linked;
      AllInside();
      var node; ghost var w;
      node, w := Begin(e);
      var left, right := node, node;
      while true
        invariant Searching(w, e) && fresh(node) && w.node == node && w.left == left && w.right == right
        decreases root.hi - root.lo
      {
        var stop;
        stop, left, right, w := StepOut(comp, e, left, right, w);
        if stop { break; }
      }
      assert Parted(w, root, nodes, root);
      Assemble(node, left, right, w, if comp < 0 then e else root.key, if comp < 0 then root.key else e);
      Outer(comp, e);
    }

    lemma AllInside()
      requires Valid()
      ensures forall n :: n in nodes ==> lo < n.key < hi
    {
      forall n | n in nodes ensures lo < n.key < hi { assert Linked(root, nodes, lo, hi, n); }
    }

    lemma Outer(comp: int, e: int)
      requires Valid() && root != null
      requires forall n :: n in nodes ==> if comp < 0 then e < n.key else n.key < e
      requires if comp < 0 then root.left != null ==> root.left.hi <= e else root.right != null ==> e <= root.right.lo
      ensures root in nodes
      ensures forall n :: n in nodes && n != root ==> if comp < 0 then root.key < n.key else n.key < root.key
    {
      forall n | n in nodes && n != root ensures if comp < 0 then root.key < n.key else n.key < root.key {
        Below(root, nodes, lo, hi, n);
      }
    }

    // SPLAY_FIND
    method Find(elm: Node) returns (r: Node?)
      requires Valid()
      modifies this`root, this`lo, this`hi, nodes`left, nodes`right, nodes`up, nodes`lo, nodes`hi
      ensures Valid()
      ensures r == null <==> forall n :: n in nodes ==> n.key != elm.key
      ensures r != null ==> r in nodes && r.key == elm.key && r == root
      ensures Order() == old(Order())
    {
      if root == null { return null; }
      Splay(elm);
      if elm.key == root.key { return root; }
      return null;
    }

    // The node elm becomes the root, the old root its right child ...
    method TopBefore(elm: Node)
      requires root != null && root != elm && (root.left != null ==> root.left != root && root.left != elm)
      modifies this`root, root`left, root`up, root`lo, Real(root.left)`up, elm`left, elm`right, elm`up, elm`lo, elm`hi
      ensures root == elm && elm.left == old(root.left) && elm.right == old(root) && elm.up == null && elm.lo == lo &&
        elm.hi == hi
      ensures old(root).left == null && old(root).up == elm && old(root).lo == elm.key
      ensures elm.left != null ==> elm.left.up == elm
    {
      elm.left := root.left;
      elm.right := root;
      root.left := null;
      if elm.left != null { elm.left.up := elm; }
      root.up, root.lo := elm, elm.key;
      elm.up, elm.lo, elm.hi := null, lo, hi;
      root := elm;
    }

    method PutBefore(elm: Node)
      requires Valid() && root != null && elm !in nodes && lo < elm.key < root.key && root.hi == hi
      requires root.left != null ==> root.left.hi <= elm.key
      modifies this`root, this`nodes, root`left, root`up, root`lo, Real(root.left)`up, elm`left, elm`right, elm`up,
        elm`lo, elm`hi
      ensures Valid() && nodes == old(nodes) + {elm} && root == elm
    {
      ghost var x := root;
      assert Linked(root, nodes, lo, hi, root);
      if root.left != null { assert Linked(root, nodes, lo, hi, root.left); }
      if root.right != null { assert Linked(root, nodes, lo, hi, root.right); }
      TopBefore(elm);
      nodes := nodes + {elm};
      forall n | n in nodes ensures Linked(elm, nodes, lo, hi, n) {
        if n != elm { assert old(Linked(root, nodes, lo, hi, n)); }
      }
    }

    // ... or its left child.
    method TopAfter(elm: Node)
      requires root != null && root != elm && (root.right != null ==> root.right != root && root.right != elm)
      modifies this`root, root`right, root`up, root`hi, Real(root.right)`up, elm`left, elm`right, elm`up, elm`lo, elm`hi
      ensures root == elm && elm.right == old(root.right) && elm.left == old(root) && elm.up == null && elm.lo == lo &&
        elm.hi == hi
      ensures old(root).right == null && old(root).up == elm && old(root).hi == elm.key
      ensures elm.right != null ==> elm.right.up == elm
    {
      elm.right := root.right;
      elm.left := root;
      root.right := null;
      if elm.right != null { elm.right.up := elm; }
      root.up, root.hi := elm, elm.key;
      elm.up, elm.lo, elm.hi := null, lo, hi;
      root := elm;
    }

    method PutAfter(elm: Node)
      requires Valid() && root != null && elm !in nodes && root.key < elm.key < hi && root.lo == lo
      requires root.right != null ==> elm.key <= root.right.lo
      modifies this`root, this`nodes, root`right, root`up, root`hi, Real(root.right)`up, elm`left, elm`right, elm`up,
        elm`lo, elm`hi
      ensures Valid() && nodes == old(nodes) + {elm} && root == elm
    {
      ghost var x := root;
      assert Linked(root, nodes, lo, hi, root);
      if root.left != null { assert Linked(root, nodes, lo, hi, root.left); }
      if root.right != null { assert Linked(root, nodes, lo, hi, root.right); }
      TopAfter(elm);
      nodes := nodes + {elm};
      forall n | n in nodes ensures Linked(elm, nodes, lo, hi, n) {
        if n != elm { assert old(Linked(root, nodes, lo, hi, n)); }
      }
    }

    // SPLAY_INSERT
    method Insert(elm: Node) returns (r: Node?)
      requires Valid()
      modifies this, nodes`left, nodes`right, nodes`up, nodes`lo, nodes`hi, elm`left, elm`right, elm`up, elm`lo, elm`hi
      ensures Valid()
      ensures if r == null then nodes == old(nodes) + {elm} && root == elm && forall n :: n in old(nodes) ==>
        n.key != elm.key
              else nodes == old(nodes) && r in nodes && r.key == elm.key
    {
      if root == null {
        elm.left, elm.right := null, null;
        lo, hi := elm.key - 1, elm.key + 1;
        elm.up, elm.lo, elm.hi := null, lo, hi;
        root := elm;
        nodes := {elm};
      } else {
        Splay(elm);
        assert Linked(root, nodes, lo, hi, root);
        if elm.key < root.key {
          PutBefore(elm);
        } else if elm.key > root.key {
          PutAfter(elm);
        } else {
          return root;
        }
      }
      return null;
    }

    // Left and right of the root there are two trees.
    ghost method Part() returns (a: set<Node>, b: set<Node>)
      requires Valid() && root != null && Linked(root, nodes, lo, hi, root)
      modifies Real(root.left)`up, Real(root.right)`up
      ensures a == Lesser(root, nodes) && b == Greater(root, nodes) && nodes == a + b + {root}
      ensures Tree(root.left, a, lo, hi) && Tree(root.right, b, lo, hi)
      ensures root.right != null ==> root.key <= root.right.lo
    {
      hide Parts;
      Halves(root, nodes, lo, hi);
      a, b := Lesser(root, nodes), Greater(root, nodes);
      if root.left != null { assert Linked(root, nodes, lo, hi, root.left); }
      if root.right != null { assert Linked(root, nodes, lo, hi, root.right); }
      if root.left != null { root.left.up := null; }
      if root.right != null { root.right.up := null; }
      forall n | n in a ensures Linked(root.left, a, lo, hi, n) {
        assert old(SideLinked(root, root.left, Lesser(root, nodes), lo, hi, n));
      }
      forall n | n in b ensures Linked(root.right, b, lo, hi, n) {
        assert old(SideLinked(root, root.right, Greater(root, nodes), lo, hi, n));
      }
    }

    // SPLAY_REMOVE
    method Remove(elm: Node) returns (r: Node?)
      requires Valid()
      modifies this, nodes`left, nodes`right, nodes`up, nodes`lo, nodes`hi
      ensures Valid()
      ensures if forall n :: n in old(nodes) ==> n.key != elm.key then r == null && nodes == old(nodes)
              else r == elm && exists x :: x in old(nodes) && x.key == elm.key && nodes == old(nodes) - {x}
    {
      if root == null { return null; }
      Splay(elm);
      if elm.key != root.key { return null; }
      ghost var x := root;
      assert Linked(root, nodes, lo, hi, root);
      hide Linked, InOrder, Order, Between;
      ghost var a, b := Part();
      if root.left == null {
        root := root.right;
        nodes := b;
      } else {
        var tmp := root.right;
        root := root.left;
        nodes := a;
        Rejoin(elm, tmp, b);
      }
      assert x in old(nodes) && x.key == elm.key && nodes == old(nodes) - {x};
      return elm;
    }

    // Splays the tree of the nodes before elm and hangs the one of those after it on its root.
    method Rejoin(elm: Node, tmp: Node?, ghost b: set<Node>)
      requires Valid() && root != null && Tree(tmp, b, lo, hi) && nodes !! b
      requires (forall n :: n in nodes ==> n.key < elm.key) && (tmp != null ==> elm.key <= tmp.lo)
      modifies this, nodes`left, nodes`right, nodes`up, nodes`lo, nodes`hi, Real(tmp)`up
      ensures Valid() && nodes == old(nodes) + b
    {
      hide Linked, InOrder, Order;
      ghost var lo0, hi0 := lo, hi;
      Splay(elm);
      Wider(tmp, b, lo0, hi0, lo, hi);
      KidAbove(elm.key);
      Join(tmp, b);
    }

    lemma KidAbove(e: int)
      requires Valid() && root != null && (root.right != null ==> e <= root.right.lo)
      ensures root.right == null || (root.right in nodes && e < root.right.key)
    {
      assert Linked(root, nodes, lo, hi, root);
      if root.right != null { assert Linked(root, nodes, lo, hi, root.right); }
    }

    // A tree to the right of all keys becomes the right child of the root.
    method Join(tmp: Node?, ghost b: set<Node>)
      requires Valid() && root != null && Tree(tmp, b, lo, hi) && nodes !! b && root.hi == hi && root.right == null
      requires tmp != null ==> root.key <= tmp.lo
      modifies this`nodes, root`right, Real(tmp)`up
      ensures Valid() && nodes == old(nodes) + b
    {
      assert Linked(root, nodes, lo, hi, root);
      root.right := tmp;
      if tmp != null {
        assert Linked(tmp, b, lo, hi, tmp);
        tmp.up := root;
      }
      nodes := nodes + b;
      forall n | n in nodes ensures Linked(root, nodes, lo, hi, n) {
        if n in b { assert old(Linked(tmp, b, lo, hi, n)); } else { assert old(Linked(root, nodes, lo, hi, n)); }
      }
    }
  }
}
