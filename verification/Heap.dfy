// The intrusive binary heap of heap-inl.h: nodes linked by left, right and parent pointers.
//
// The ghost sequence ns lists the nodes of the complete tree in level order: the children of number i
// are 2i+1 and 2i+2.
module Heap {
  import opened Bits

  class HeapNode<K> {
    var left: HeapNode?<K>
    var right: HeapNode?<K>
    var parent: HeapNode?<K>
    // What less_than looks at; no operation of the heap changes it.
    var key: K

    constructor (key: K)
      ensures this.key == key
    {
      this.key := key;
    }
  }

  // less_than is a strict weak order.
  ghost predicate Order<K(!new)>(less: (K, K) -> bool) {
    && (forall a, b :: less(a, b) ==> !less(b, a))
    && (forall a, b, c :: !less(b, a) && !less(c, b) ==> !less(c, a))
  }

  function Up(j: nat): nat
    requires j > 0
  {
    (j - 1) / 2
  }

  // n halved k times, and the k bits dropped on the way, the last one dropped first.
  ghost function Half(n: nat, k: nat): nat {
    if k == 0 then n else Half(n, k - 1) / 2
  }

  ghost function Path(n: nat, k: nat): nat {
    if k == 0 then 0 else 2 * Path(n, k - 1) + Half(n, k - 1) % 2
  }

  lemma {:induction false} HalfLess(n: nat, k: nat)
    ensures Half(n, k) <= n && (k > 0 && n > 0 ==> Half(n, k) < n)
  {
    if k > 0 { HalfLess(n, k - 1); }
  }

  ghost function At<K>(ns: seq<HeapNode<K>>, i: nat): HeapNode?<K> {
    if i < |ns| then ns[i] else null
  }

  // The pointers of number j are as the level order says.
  ghost predicate Wired<K>(ns: seq<HeapNode<K>>, j: nat)
    requires j < |ns|
    reads (ns[j] as HeapNode<K>)`left, (ns[j] as HeapNode<K>)`right, (ns[j] as HeapNode<K>)`parent
  {
    && ns[j].left == At(ns, 2 * j + 1)
    && ns[j].right == At(ns, 2 * j + 2)
    && ns[j].parent == if j == 0 then null else ns[Up(j)]
  }

  ghost predicate Distinct<K>(ns: seq<HeapNode<K>>) {
    forall i, j :: 0 <= i < j < |ns| ==> ns[i] != ns[j]
  }

  ghost function Elements<K>(ns: seq<HeapNode<K>>): set<HeapNode<K>> {
    set n | n in ns
  }

  // Number j does not come before its parent.
  ghost predicate Above<K(!new)>(less: (K, K) -> bool, ns: seq<HeapNode<K>>, j: nat)
    requires j < |ns|
    reads Elements(ns)`key
  {
    j == 0 || !less(ns[j].key, ns[Up(j)].key)
  }

  ghost predicate Ordered<K(!new)>(less: (K, K) -> bool, ns: seq<HeapNode<K>>)
    reads Elements(ns)`key
  {
    forall j: nat {:trigger Above(less, ns, j)} :: j < |ns| ==> Above(less, ns, j)
  }

  // Number j does not come before its grandparent.
  ghost predicate WellAbove<K(!new)>(less: (K, K) -> bool, ns: seq<HeapNode<K>>, j: nat)
    requires 0 < j < |ns|
    reads Elements(ns)`key
  {
    Up(j) == 0 || !less(ns[j].key, ns[Up(Up(j))].key)
  }

  // Only number p may be too low: its children do not come before its parent.
  ghost predicate OrderedButUp<K(!new)>(less: (K, K) -> bool, ns: seq<HeapNode<K>>, p: nat)
    reads Elements(ns)`key
  {
    && (forall j: nat {:trigger Above(less, ns, j)} :: j < |ns| && j != p ==> Above(less, ns, j))
    && (forall j: nat {:trigger WellAbove(less, ns, j)} :: 0 < j < |ns| && Up(j) == p ==> WellAbove(less, ns, j))
  }

  // Number p may be too low or too high.
  ghost predicate OrderedBut<K(!new)>(less: (K, K) -> bool, ns: seq<HeapNode<K>>, p: nat)
    reads Elements(ns)`key
  {
    && (forall j: nat {:trigger Above(less, ns, j)} :: j < |ns| && j != p && (j == 0 || Up(j) != p) ==>
          Above(less, ns, j))
    && (forall j: nat {:trigger WellAbove(less, ns, j)} :: 0 < j < |ns| && Up(j) == p ==> WellAbove(less, ns, j))
  }

  lemma StepUp<K(!new)>(less: (K, K) -> bool, ns: seq<HeapNode<K>>, p: nat)
    requires Order(less) && OrderedButUp(less, ns, p) && 0 < p < |ns| && less(ns[p].key, ns[Up(p)].key)
    ensures OrderedButUp(less, ns[Up(p) := ns[p]][p := ns[Up(p)]], Up(p))
  {
    var q := Up(p);
    var ms := ns[q := ns[p]][p := ns[q]];
    assert Above(less, ns, q);
    forall j: nat | j < |ns| && j != q ensures Above(less, ms, j) {
      assert j != p ==> Above(less, ns, j);
      if j > 0 && Up(j) == p { assert WellAbove(less, ns, j); }
    }
    forall j: nat | 0 < j < |ns| && Up(j) == q ensures WellAbove(less, ms, j) {
      assert j != p ==> Above(less, ns, j);
    }
  }

  lemma StepDown<K(!new)>(less: (K, K) -> bool, ns: seq<HeapNode<K>>, c: nat)
    requires Order(less) && 0 < c < |ns| && OrderedBut(less, ns, Up(c)) && less(ns[c].key, ns[Up(c)].key)
    requires forall j: nat :: 0 < j < |ns| && Up(j) == Up(c) ==> !less(ns[j].key, ns[c].key)
    ensures OrderedBut(less, ns[Up(c) := ns[c]][c := ns[Up(c)]], c)
  {
    var p := Up(c);
    var ms := ns[p := ns[c]][c := ns[p]];
    assert WellAbove(less, ns, c);
    forall j: nat | j < |ns| && j != c && (j == 0 || Up(j) != c) ensures Above(less, ms, j) {
      if j != p && (j == 0 || Up(j) != p) { assert Above(less, ns, j); }
    }
    forall j: nat | 0 < j < |ns| && Up(j) == c ensures WellAbove(less, ms, j) {
      assert Above(less, ns, j);
    }
  }

  // The last node in the place of number r may be too low or too high there.
  lemma ReplacedOrder<K(!new)>(less: (K, K) -> bool, ns: seq<HeapNode<K>>, r: nat)
    requires Order(less) && Ordered(less, ns) && Distinct(ns) && r < |ns| - 1
    ensures OrderedBut(less, ns[..|ns| - 1][r := ns[|ns| - 1]], r)
    ensures Elements(ns[..|ns| - 1][r := ns[|ns| - 1]]) == Elements(ns) - {ns[r]}
  {
    var m := |ns| - 1;
    var ms := ns[..m][r := ns[m]];
    assert Above(less, ns, r);
    forall j: nat | j < |ms| && j != r && (j == 0 || Up(j) != r) ensures Above(less, ms, j) {
      assert Above(less, ns, j);
    }
    forall j: nat | 0 < j < |ms| && Up(j) == r ensures WellAbove(less, ms, j) { assert Above(less, ns, j); }
    forall n | n in ns && n != ns[r] ensures n in ms {
      var k :| 0 <= k < |ns| && ns[k] == n;
      assert ms[if k == m then r else k] == n;
    }
  }

  lemma LastDropped<K(!new)>(less: (K, K) -> bool, ns: seq<HeapNode<K>>)
    requires Ordered(less, ns) && Distinct(ns) && ns != []
    ensures Ordered(less, ns[..|ns| - 1]) && Elements(ns[..|ns| - 1]) == Elements(ns) - {ns[|ns| - 1]}
  {
    var ms := ns[..|ns| - 1];
    forall j: nat | j < |ms| ensures Above(less, ms, j) { assert Above(less, ns, j); }
    assert ns == ms + [ns[|ns| - 1]];
  }

  lemma StopUp<K(!new)>(less: (K, K) -> bool, ns: seq<HeapNode<K>>, p: nat)
    requires OrderedButUp(less, ns, p) && p < |ns| && Above(less, ns, p)
    ensures Ordered(less, ns)
  {
  }

  lemma StopDown<K(!new)>(less: (K, K) -> bool, ns: seq<HeapNode<K>>, p: nat)
    requires OrderedBut(less, ns, p) && forall j: nat :: 0 < j < |ns| && Up(j) == p ==> !less(ns[j].key, ns[p].key)
    ensures OrderedButUp(less, ns, p)
  {
    forall j: nat | j < |ns| && j != p ensures Above(less, ns, j) {}
  }

  ghost function NonNull<K>(s: set<HeapNode?<K>>): set<HeapNode<K>> {
    set n: HeapNode<K> | n in s
  }

  // The transposition of p and c.
  ghost function Flip<K>(p: HeapNode<K>, c: HeapNode<K>, n: HeapNode?<K>): (m: HeapNode?<K>)
    ensures n != null ==> m != null
  {
    if n == p then c else if n == c then p else n
  }

  // ms is ns with p and c exchanged.
  ghost predicate FlippedSeq<K>(ns: seq<HeapNode<K>>, ms: seq<HeapNode<K>>, p: HeapNode<K>, c: HeapNode<K>) {
    |ms| == |ns| && forall k: nat {:trigger At(ms, k)} :: At(ms, k) == Flip(p, c, At(ns, k))
  }

  lemma FlipNumbers<K>(ns: seq<HeapNode<K>>, i: nat, c: nat)
    requires Distinct(ns) && i < |ns| && c < |ns| && i != c
    ensures Elements(ns[i := ns[c]][c := ns[i]]) == Elements(ns)
    ensures Distinct(ns[i := ns[c]][c := ns[i]]) && FlippedSeq(ns, ns[i := ns[c]][c := ns[i]], ns[i], ns[c])
  {
    var ms := ns[i := ns[c]][c := ns[i]];
    forall n | n in ns ensures n in ms {
      var k :| 0 <= k < |ns| && ns[k] == n;
      assert ms[if k == i then c else if k == c then i else k] == n;
    }
  }

  datatype Seat<K> = Seat(ns: seq<HeapNode<K>>, ms: seq<HeapNode<K>>, p: HeapNode<K>, c: HeapNode<K>, j: nat)

  twostate lemma MovedWired<K>(s: Seat<K>)
    requires s.j < |s.ns| && FlippedSeq(s.ns, s.ms, s.p, s.c)
    requires old(Wired(s.ns, s.j)) && Moved(s.p, s.c, s.ms[s.j])
    ensures Wired(s.ms, s.j)
  {
    assert At(s.ms, s.j) == s.ms[s.j];
    if s.j > 0 { assert At(s.ms, Up(s.j)) == s.ms[Up(s.j)]; }
  }

  // The node and its neighbours point at each other.
  ghost predicate Consistent<K>(all: set<HeapNode<K>>, n: HeapNode<K>)
    reads n, all
  {
    && (n.left != null ==> n.left in all && n.left.parent == n)
    && (n.right != null ==> n.right in all && n.right.parent == n && n.left != n.right)
    && (n.parent != null ==> n.parent in all && n.parent != n && (n.parent.left == n || n.parent.right == n))
  }

  // Node n now has the pointers that its counterpart had, with p and c exchanged.
  twostate predicate Moved<K>(p: HeapNode<K>, c: HeapNode<K>, n: HeapNode<K>)
    reads n
  {
    var m: HeapNode<K> := Flip(p, c, n);
    && n.left == Flip(p, c, old(m.left))
    && n.right == Flip(p, c, old(m.right))
    && n.parent == Flip(p, c, old(m.parent))
  }

  ghost function Instead<K>(p: HeapNode<K>, c: HeapNode<K>, n: HeapNode?<K>): HeapNode?<K> {
    if n == p then c else n
  }

  // Node n now has the pointers that it, or p if n is c, had, with c instead of p.
  twostate predicate Stands<K>(p: HeapNode<K>, c: HeapNode<K>, n: HeapNode<K>)
    reads n
  {
    var m := if n == c then p else n;
    && n.left == Instead(p, c, old(m.left))
    && n.right == Instead(p, c, old(m.right))
    && n.parent == Instead(p, c, old(m.parent))
  }

  class Heap<K(!new)> {
    const less: (K, K) -> bool
    var min: HeapNode?<K>
    var nelts: nat
    ghost var ns: seq<HeapNode<K>>

    ghost predicate Shape()
      reads this, Elements(ns)`left, Elements(ns)`right, Elements(ns)`parent
    {
      && nelts == |ns| && min == At(ns, 0) && Distinct(ns)
      && forall j: nat {:trigger Wired(ns, j)} :: j < |ns| ==> Wired(ns, j)
    }

    // heap_node_swap: every pointer is as if parent and child had exchanged places.
    method SwapLinks(ghost all: set<HeapNode<K>>, parent: HeapNode<K>, child: HeapNode<K>)
      requires (forall n {:trigger Consistent(all, n)} :: n in all ==> Consistent(all, n)) && parent in all &&
        child in all
      requires child.parent == parent != child && parent.parent != child
      requires parent.parent == null <==> min == parent
      requires min != child
      modifies this`min, all`left, all`right, all`parent
      ensures min == Flip(parent, child, old(min))
      ensures forall n {:trigger Moved(parent, child, n)} :: n in all ==> Moved(parent, child, n)
    {
      assert Consistent(all, child) && Consistent(all, parent);
      var sibling := Trade(parent, child);
      Adopt(parent, child, sibling);
      Hook(parent, child);
      forall n | n in all ensures Moved(parent, child, n) {
        assert old(Consistent(all, n));
      }
    }

    // ... and the last one redirects the pointer from above.
    method Hook(parent: HeapNode<K>, child: HeapNode<K>)
      modifies this`min, NonNull({child.parent})`left, NonNull({child.parent})`right
      ensures min == if child.parent == null then child else old(min)
      ensures child.parent != null ==>
        && child.parent.left == (if old(child.parent.left) == parent then child else old(child.parent.left))
        && child.parent.right == (if old(child.parent.left) == parent then old(child.parent.right) else child)
    {
      if child.parent == null {
        min := child;
      } else if child.parent.left == parent {
        child.parent.left := child;
      } else {
        child.parent.right := child;
      }
    }

    // The first part exchanges the nodes' own pointers ...
    static method Trade(parent: HeapNode<K>, child: HeapNode<K>) returns (sibling: HeapNode?<K>)
      requires child.parent == parent != child && child in {parent.left, parent.right} && parent.left != parent.right
      modifies parent`left, parent`right, parent`parent, child`left, child`right, child`parent
      ensures parent.left == old(child.left) && parent.right == old(child.right) && parent.parent == child
      ensures child.parent == old(parent.parent)
      ensures if old(parent.left) == child then child.left == parent && child.right == old(parent.right) == sibling
              else child.right == parent && child.left == old(parent.left) == sibling
    {
      child.left, child.right, child.parent, parent.left, parent.right, parent.parent :=
        parent.left, parent.right, parent.parent, child.left, child.right, child.parent;
      parent.parent := child;
      if child.left == child {
        child.left := parent;
        sibling := child.right;
      } else {
        child.right := parent;
        sibling := child.left;
      }
    }

    // ... the second tells the nodes below about it.
    static method Adopt(parent: HeapNode<K>, child: HeapNode<K>, sibling: HeapNode?<K>)
      requires parent != sibling && child != sibling
      requires parent.left != parent && parent.left != child && parent.right != parent && parent.right != child
      requires sibling == null || (sibling != parent.left && sibling != parent.right)
      modifies NonNull({sibling, parent.left, parent.right})`parent
      ensures sibling != null ==> sibling.parent == child
      ensures parent.left != null ==> parent.left.parent == parent
      ensures parent.right != null ==> parent.right.parent == parent
    {
      if sibling != null { sibling.parent := child; }
      if parent.left != null { parent.left.parent := parent; }
      if parent.right != null { parent.right.parent := parent; }
    }

    ghost predicate Valid()
      reads this, Elements(ns)
    {
      Shape() && Order(less) && Ordered(less, ns)
    }

    ghost function Members(): set<HeapNode<K>>
      reads this
    {
      Elements(ns)
    }

    // heap_init
    constructor (less: (K, K) -> bool)
      requires Order(less)
      ensures Valid() && Members() == {} && this.less == less
    {
      this.less := less;
      min, nelts, ns := null, 0, [];
    }

    lemma ShapeConsistent()
      requires Shape()
      ensures forall n {:trigger Consistent(Elements(ns), n)} :: n in Elements(ns) ==> Consistent(Elements(ns), n)
    {
      forall n | n in Elements(ns) ensures Consistent(Elements(ns), n) {
        var j: nat :| j < |ns| && ns[j] == n;
        assert Wired(ns, j);
        if 2 * j + 1 < |ns| { assert Wired(ns, 2 * j + 1); }
        if 2 * j + 2 < |ns| { assert Wired(ns, 2 * j + 2); }
        if j > 0 { assert Wired(ns, Up(j)); }
      }
    }

    // heap_node_swap of number c and its parent.
    method NodeSwap(parent: HeapNode<K>, child: HeapNode<K>, ghost c: nat)
      requires Shape() && 0 < c < |ns| && ns[Up(c)] == parent && ns[c] == child
      modifies this`min, this`ns, Elements(ns)`left, Elements(ns)`right, Elements(ns)`parent
      ensures Shape() && ns == old(ns)[Up(c) := child][c := parent]
    {
      hide Order;
      ghost var i := Up(c);
      ShapeConsistent();
      assert Wired(ns, i) && Wired(ns, c) && Wired(ns, 0);
      ghost var ms := ns[i := child][c := parent];
      FlipNumbers(ns, i, c);
      SwapLinks(Elements(ns), parent, child);
      forall j: nat | j < |ns| ensures Wired(ms, j) {
        assert old(Wired(ns, j)) && At(ms, j) in Elements(ns);
        MovedWired(Seat(ns, ms, parent, child, j));
      }
      ns := ms;
    }

    // Walking up (heap-inl.h:146-147, 235-236).
    method SiftUp(node: HeapNode<K>, ghost j0: nat)
      requires Shape() && Order(less) && j0 < |ns| && ns[j0] == node && OrderedButUp(less, ns, j0)
      modifies this`min, this`ns, Elements(ns)`left, Elements(ns)`right, Elements(ns)`parent
      ensures Shape() && Ordered(less, ns) && Elements(ns) == old(Elements(ns)) && |ns| == old(|ns|)
    {
      ghost var j: nat := j0;
      assert Wired(ns, j);
      while node.parent != null && less(node.key, node.parent.key)
        invariant Shape() && j < |ns| && ns[j] == node && OrderedButUp(less, ns, j) && Wired(ns, j)
        invariant Elements(ns) == old(Elements(ns)) && |ns| == old(|ns|)
        decreases j
      {
        StepUp(less, ns, j);
        FlipNumbers(ns, Up(j), j);
        NodeSwap(node.parent, node, j);
        j := Up(j);
        assert Wired(ns, j);
      }
      StopUp(less, ns, j);
    }

    method Smallest(node: HeapNode<K>, ghost j: nat) returns (smallest: HeapNode<K>, ghost c: nat)
      requires Shape() && Order(less) && j < |ns| && ns[j] == node
      ensures c < |ns| && ns[c] == smallest && (c == j || (c > 0 && Up(c) == j && less(smallest.key, node.key)))
      ensures forall i: nat :: 0 < i < |ns| && Up(i) == j ==> !less(ns[i].key, smallest.key)
    {
      assert Wired(ns, j);
      smallest, c := node, j;
      if node.left != null && less(node.left.key, smallest.key) { smallest, c := node.left, 2 * j + 1; }
      if node.right != null && less(node.right.key, smallest.key) { smallest, c := node.right, 2 * j + 2; }
      forall i: nat | 0 < i < |ns| && Up(i) == j ensures !less(ns[i].key, smallest.key) {
        assert i == 2 * j + 1 || i == 2 * j + 2;
      }
    }

    // Walking down (heap-inl.h:220-229).
    method SiftDown(node: HeapNode<K>, ghost j0: nat) returns (ghost j: nat)
      requires Shape() && Order(less) && j0 < |ns| && ns[j0] == node && OrderedBut(less, ns, j0)
      modifies this`min, this`ns, Elements(ns)`left, Elements(ns)`right, Elements(ns)`parent
      ensures Shape() && j < |ns| && ns[j] == node && OrderedButUp(less, ns, j)
      ensures Elements(ns) == old(Elements(ns)) && |ns| == old(|ns|)
    {
      j := j0;
      while true
        invariant Shape() && j < |ns| && ns[j] == node && OrderedBut(less, ns, j)
        invariant Elements(ns) == old(Elements(ns)) && |ns| == old(|ns|)
        decreases |ns| - j
      {
        var smallest, c := Smallest(node, j);
        if smallest == node { break; }
        StepDown(less, ns, c);
        FlipNumbers(ns, j, c);
        NodeSwap(node, smallest, c);
        j := c;
      }
      StopDown(less, ns, j);
    }

    // The pointer that the bits of n lead to: the root if at is null, or a child of at.  It is that of
    // number n - 1 of the level order.
    method FindSlot(n: nat) returns (at: HeapNode?<K>, right: bool)
      requires Shape() && 1 <= n <= |ns| + 1
      ensures if n == 1 then at == null else at == ns[Up(n - 1)] && right == (n % 2 == 1)
    {
      var path, k, m := 0, 0, n;
      while m >= 2
        invariant m == Half(n, k) && path == Path(n, k) && 1 <= m
      {
        path := 2 * path + m % 2;
        k := k + 1;
        m := m / 2;
      }
      at, right := null, false;
      while k > 0
        invariant path == Path(n, k)
        invariant if Half(n, k) == 1 then at == null
                  else Half(n, k) >= 2 && at == At(ns, Up(Half(n, k) - 1)) && right == (Half(n, k) % 2 == 1)
      {
        HalfLess(n, k);
        ghost var x := Half(n, k);
        if x >= 2 { assert Wired(ns, Up(x - 1)); }
        at := if at == null then min else if right then at.right else at.left;
        right := path % 2 == 1;
        path := path / 2;
        k := k - 1;
      }
    }

    // *child = newnode at the left-most free place of the bottom row
    method Append(newnode: HeapNode<K>)
      requires Shape() && newnode !in Elements(ns)
      modifies this, newnode`left, newnode`right, newnode`parent, Elements(ns)`left, Elements(ns)`right
      ensures Shape() && ns == old(ns) + [newnode]
    {
      newnode.left, newnode.right, newnode.parent := null, null, null;
      var at, right := FindSlot(1 + nelts);
      newnode.parent := at;
      if at == null {
        min := newnode;
      } else if right {
        at.right := newnode;
      } else {
        at.left := newnode;
      }
      nelts := nelts + 1;
      ns := ns + [newnode];
      forall j: nat | j < |ns| ensures Wired(ns, j) {
        if j < |ns| - 1 { assert old(Wired(ns, j)); }
      }
    }

    // heap_insert
    method Insert(newnode: HeapNode<K>)
      requires Valid() && newnode !in Members()
      modifies this, newnode`left, newnode`right, newnode`parent, Elements(ns)`left, Elements(ns)`right,
        Elements(ns)`parent
      ensures Valid() && Members() == old(Members()) + {newnode}
    {
      Append(newnode);
      forall j: nat | j < |ns| - 1 ensures Above(less, ns, j) { assert Above(less, old(ns), j); }
      SiftUp(newnode, |ns| - 1);
    }

    // Unlinks the last node of the bottom row.
    method Unlink() returns (child: HeapNode<K>)
      requires Shape() && nelts > 0
      modifies this, Elements(ns)`left, Elements(ns)`right
      ensures Shape() && |old(ns)| > 0 && ns == old(ns)[..|old(ns)| - 1] && child == old(ns)[|old(ns)| - 1]
    {
      var at, right := FindSlot(nelts);
      nelts := nelts - 1;
      if at != null { assert Wired(ns, Up(nelts)); }
      if at == null {
        child := min;
        min := null;
      } else if right {
        child := at.right;
        at.right := null;
      } else {
        child := at.left;
        at.left := null;
      }
      ns := ns[..nelts];
      forall j: nat | j < |ns| ensures Wired(ns, j) { assert old(Wired(ns, j)); }
    }

    // Puts child in the place of node (heap-inl.h:195-214): every pointer is as if node had been it.
    method ReplaceLinks(ghost all: set<HeapNode<K>>, node: HeapNode<K>, child: HeapNode<K>)
      requires (forall n {:trigger Consistent(all, n)} :: n in all ==> Consistent(all, n)) && node in all &&
        child !in all
      requires node.parent == null <==> min == node
      modifies this`min, child`left, child`right, child`parent, all`left, all`right, all`parent
      ensures min == Instead(node, child, old(min))
      ensures forall n {:trigger Stands(node, child, n)} :: n in all + {child} && n != node ==> Stands(node, child, n)
    {
      assert Consistent(all, node);
      child.left := node.left;
      child.right := node.right;
      child.parent := node.parent;
      if child.left != null { child.left.parent := child; }
      if child.right != null { child.right.parent := child; }
      if node.parent == null {
        min := child;
      } else if node.parent.left == node {
        node.parent.left := child;
      } else {
        node.parent.right := child;
      }
      forall n | n in all + {child} && n != node ensures Stands(node, child, n) {
        if n in all { assert old(Consistent(all, n)); }
      }
    }

    method Replace(node: HeapNode<K>, child: HeapNode<K>, ghost r: nat)
      requires Shape() && r < |ns| && ns[r] == node && child !in Elements(ns)
      modifies this`min, this`ns, child`left, child`right, child`parent, Elements(ns)`left, Elements(ns)`right,
        Elements(ns)`parent
      ensures Shape() && ns == old(ns)[r := child]
    {
      ShapeConsistent();
      assert Wired(ns, r) && Wired(ns, 0);
      ghost var ms := ns[r := child];
      ReplaceLinks(Elements(ns), node, child);
      forall j: nat | j < |ms| ensures Wired(ms, j) {
        assert old(Wired(ns, j)) && Stands(node, child, ms[j]);
      }
      ns := ms;
    }

    // heap_remove
    method Remove(node: HeapNode?<K>)
      requires Valid() && (nelts != 0 ==> node in Members())
      modifies this, Elements(ns)`left, Elements(ns)`right, Elements(ns)`parent
      ensures Valid() && Members() == old(Members()) - {node}
    {
      hide Ordered, OrderedBut, OrderedButUp, Wired, Distinct, Up;
      if nelts == 0 { return; }
      ghost var ks := ns;
      ghost var r: nat :| r < |ns| && ns[r] == node;
      var child := Unlink();
      LastDropped(less, ks);
      if child == node {
        // The store of NULL in min that follows here is never reached: the root is unlinked through min.
        if child == min { assert false; }
        return;
      }
      Replace(node, child, r);
      ReplacedOrder(less, ks, r);
      ghost var j := SiftDown(child, r);
      SiftUp(child, j);
    }

    // heap_dequeue
    method Dequeue()
      requires Valid()
      modifies this, Elements(ns)`left, Elements(ns)`right, Elements(ns)`parent
      ensures Valid() && Members() == old(Members()) - {old(min)}
    {
      if nelts != 0 { assert ns[0] == min; }
      Remove(min);
    }

    // The number of steps from node n up to the root is at most log2 of the number of nodes.
    ghost function Depth(j: nat): nat { if j == 0 then 0 else Depth(Up(j)) + 1 }

    lemma {:induction false} DepthBound(j: nat)
      requires Shape() && j < |ns|
      ensures Pow2(Depth(j)) <= j + 1 <= nelts
      ensures if j == 0 then ns[j].parent == null else ns[j].parent == ns[Up(j)]
    {
      assert Wired(ns, j);
      if j > 0 { DepthBound(Up(j)); }
    }

    // heap_min: null if the heap is empty, or a member that no other member comes before.
    lemma MinIsLeast()
      requires Valid()
      ensures min == null <==> Members() == {}
      ensures min != null ==> min in Members() && forall n :: n in Members() ==> !less(n.key, min.key)
    {
      if min == null {
        assert Members() == {};
      } else {
        assert ns[0] == min && ns[0] in Members();
        forall n | n in Members() ensures !less(n.key, min.key) {
          var j: nat :| j < |ns| && ns[j] == n;
          RootLeast(j);
        }
      }
    }

    lemma {:induction false} RootLeast(j: nat)
      requires Valid() && j < |ns|
      ensures !less(ns[j].key, ns[0].key)
    {
      assert Above(less, ns, j);
      if j > 0 { RootLeast(Up(j)); }
    }
  }
}
