// Red-black trees with parent pointers (rbtree.h, RB_GENERATE).
//
// A node keeps the four fields of RB_ENTRY.  Its place in the search order is recorded by the
// ghost interval (lo, hi), which contains every key below it, and its black height by the ghost
// field bh.  Every invariant is local to a node and its neighbours, so a rotation or a recolouring
// is checked node by node; Sub and InOrder recover the global picture by recursion.
module RbTree {
  import opened Bits

  datatype Color = Black | Red
  datatype Dir = L | R

  function Opp(d: Dir): Dir { if d == L then R else L }

  class Node {
    const key: int
    var left: Node?
    var right: Node?
    var parent: Node?
    var color: Color
    ghost var lo: int
    ghost var hi: int
    ghost var bh: nat

    // The child on side d.
    function Kid(d: Dir): Node?
      reads this`left, this`right
    {
      if d == L then left else right
    }

    constructor (key: int)
      ensures this.key == key
    {
      this.key := key;
      left, right, parent, color := null, null, null, Black;
    }
  }

  ghost function Weight(c: Color): nat {
    if c == Black then 1 else 0
  }

  lemma SquareMonotone(p: nat, q: nat)
    requires p <= q
    ensures p * p <= q * q
  {
    assert q * q - p * p == (q - p) * (q + p);
  }

  // ----- sorted sequences of nodes -----

  ghost predicate Sorted(s: seq<Node>) {
    forall i, j :: 0 <= i < j < |s| ==> s[i].key < s[j].key
  }

  ghost function Elements(s: seq<Node>): set<Node> {
    set n | n in s
  }

  // The sequence s with every occurrence of x left out.
  ghost function Without(s: seq<Node>, x: Node): seq<Node> {
    if s == [] then []
    else if s[0] == x then Without(s[1..], x)
    else [s[0]] + Without(s[1..], x)
  }

  lemma {:induction false} WithoutSorted(s: seq<Node>, x: Node)
    requires Sorted(s)
    ensures Sorted(Without(s, x))
    ensures Elements(Without(s, x)) == Elements(s) - {x}
  {
    if s != [] {
      assert s == [s[0]] + s[1..];
      WithoutSorted(s[1..], x);
      var r := Without(s[1..], x);
      forall j | 0 <= j < |r| ensures s[0].key < r[j].key {
        assert r[j] in Elements(r);
        assert r[j] in s[1..];
      }
      assert Elements(s) == {s[0]} + Elements(s[1..]);
      assert Elements([s[0]] + r) == {s[0]} + Elements(r);
    }
  }

  lemma SortedJoin(l: seq<Node>, n: Node, r: seq<Node>)
    requires Sorted(l) && Sorted(r)
    requires forall m :: m in Elements(l) ==> m.key < n.key
    requires forall m :: m in Elements(r) ==> n.key < m.key
    ensures Sorted(l + [n] + r)
    ensures Elements(l + [n] + r) == Elements(l) + {n} + Elements(r)
  {
    var s := l + [n] + r;
    forall i, j | 0 <= i < j < |s| ensures s[i].key < s[j].key {
      assert i < |l| ==> l[i] in Elements(l);
      assert j > |l| ==> r[j - |l| - 1] in Elements(r);
    }
    assert forall m :: m in s <==> m in l || m == n || m in r;
  }

  // A set of nodes can be listed in key order in only one way.
  lemma {:induction false} SortedUnique(s: seq<Node>, t: seq<Node>)
    requires Sorted(s) && Sorted(t)
    requires Elements(s) == Elements(t)
    ensures s == t
  {
    if s == [] {
      assert forall i :: 0 <= i < |t| ==> t[i] in Elements(t);
    } else {
      assert s[0] in Elements(s);
      assert t[0] in Elements(t);
      assert s[0] == t[0];
      assert s == [s[0]] + s[1..] && t == [t[0]] + t[1..];
      assert Elements(s) == {s[0]} + Elements(s[1..]) && Elements(t) == {t[0]} + Elements(t[1..]);
      assert s[0] !in s[1..] && t[0] !in t[1..];
      SortedUnique(s[1..], t[1..]);
    }
  }

  // A rotation: elm sinks to side d and its child on the other side takes its place.
  datatype Turn = Turn(elm: Node, d: Dir) {
    ghost function Riser(): Node?
      reads elm
    {
      elm.Kid(Opp(d))
    }

    // The subtree that changes sides.
    ghost function Mover(): Node?
      reads elm, elm.Kid(Opp(d))
    {
      if Riser() == null then null else Riser().Kid(d)
    }
  }

  // A node of the given colour has been unlinked from between parent and child; elm will replace gone.
  datatype Gap = Gap(gone: Node, elm: Node, color: Color, parent: Node?, child: Node?)

  class Tree {
    var root: Node?
    ghost var nodes: set<Node>
    ghost var lo: int
    ghost var hi: int

    // Links and search order around one node.
    ghost predicate Linked(n: Node)
      requires n in nodes
      reads this`root, this`nodes, this`lo, this`hi, nodes`left, nodes`right, nodes`parent, nodes`lo, nodes`hi
    {
      && n.lo < n.key < n.hi && lo <= n.lo && n.hi <= hi
      && (n.left != null ==>
            && n.left in nodes && n.left.parent == n
            && n.lo <= n.left.lo && n.left.hi <= n.key)
      && (n.right != null ==>
            && n.right in nodes && n.right.parent == n
            && n.key <= n.right.lo && n.right.hi <= n.hi)
      && (n.parent == null ==> n == root)
      && (n.parent != null ==> n.parent in nodes && (n.parent.left == n || n.parent.right == n))
    }

    ghost predicate LinksOk()
      reads this`root, this`nodes, this`lo, this`hi, nodes`left, nodes`right, nodes`parent, nodes`lo, nodes`hi
    {
      && (root == null <==> nodes == {})
      && (root != null ==> root in nodes && root.parent == null)
      && forall n {:trigger Linked(n)} :: n in nodes ==> Linked(n)
    }

    ghost function Bh(n: Node?): nat
      reads this`nodes, nodes`bh
    {
      if n == null || n !in nodes then 0 else n.bh
    }

    ghost predicate IsRed(n: Node?)
      reads this`nodes, nodes`color
    {
      n != null && n in nodes && n.color == Red
    }

    // Equal black height on both sides.
    ghost predicate BhOk(n: Node)
      requires n in nodes
      reads this`nodes, nodes`left, nodes`right, nodes`color, nodes`bh
    {
      Bh(n.left) == Bh(n.right) && n.bh == Bh(n.left) + Weight(n.color)
    }

    // The same, with b as the black height of the child on side d.
    ghost predicate BhSide(n: Node, d: Dir, b: nat)
      requires n in nodes
      reads this`nodes, nodes`left, nodes`right, nodes`color, nodes`bh
    {
      Bh(n.Kid(Opp(d))) == b && n.bh == b + Weight(n.color)
    }

    // A red node has no red parent.
    ghost predicate RedOk(n: Node)
      requires n in nodes
      reads this`nodes, nodes`parent, nodes`color
    {
      n.color == Red ==> !IsRed(n.parent)
    }

    // The red-black invariant.
    ghost predicate Valid()
      reads this, nodes
    {
      && LinksOk()
      && !IsRed(root)
      && (forall n {:trigger BhOk(n)} :: n in nodes ==> BhOk(n))
      && (forall n {:trigger RedOk(n)} :: n in nodes ==> RedOk(n))
    }

    // ----- the tree as a whole -----

    ghost function Sub(n: Node?): set<Node>
      requires LinksOk() && (n != null ==> n in nodes)
      reads this, nodes
      decreases if n == null then 0 else n.hi - n.lo
    {
      if n == null then {} else assert Linked(n); {n} + Sub(n.left) + Sub(n.right)
    }

    ghost function InOrder(n: Node?): seq<Node>
      requires LinksOk() && (n != null ==> n in nodes)
      reads this, nodes
      decreases if n == null then 0 else n.hi - n.lo
    {
      if n == null then [] else assert Linked(n); InOrder(n.left) + [n] + InOrder(n.right)
    }

    ghost function Order(): seq<Node>
      requires LinksOk()
      reads this, nodes
    {
      InOrder(root)
    }

    ghost function Height(n: Node?): nat
      requires LinksOk() && (n != null ==> n in nodes)
      reads this, nodes
      decreases if n == null then 0 else n.hi - n.lo
    {
      if n == null then 0
      else
        assert Linked(n);
        var l, r := Height(n.left), Height(n.right);
        1 + if l < r then r else l
    }

    lemma {:induction false} SubBounds(n: Node)
      requires LinksOk() && n in nodes
      ensures Sub(n) <= nodes
      ensures forall m :: m in Sub(n) ==> n.lo <= m.lo && m.hi <= n.hi && n.lo < m.key < n.hi
      ensures Linked(n) && (n.left != null ==> forall m :: m in Sub(n.left) ==> m.key < n.key)
      ensures (n.right != null ==> forall m :: m in Sub(n.right) ==> n.key < m.key)
      decreases n.hi - n.lo
    {
      assert Linked(n);
      if n.left != null { SubBounds(n.left); }
      if n.right != null { SubBounds(n.right); }
    }

    lemma {:induction false} Climb(m: Node)
      requires LinksOk() && m in nodes
      ensures m in Sub(root)
      ensures forall x :: x in Sub(m) ==> x in Sub(root)
      decreases (hi - lo) - (m.hi - m.lo)
    {
      assert Linked(m);
      if m.parent != null {
        assert Linked(m.parent);
        Climb(m.parent);
        assert Sub(m) <= Sub(m.parent);
      }
      assert m in Sub(m);
    }

    lemma SubRoot()
      requires LinksOk()
      ensures Sub(root) == nodes
    {
      if root != null { SubBounds(root); }
      forall m | m in nodes ensures m in Sub(root) { Climb(m); }
    }

    lemma Parts(n: Node)
      requires LinksOk() && n in nodes
      ensures (n.left != null ==> n.left in nodes && n.left.hi - n.left.lo < n.hi - n.lo)
      ensures (n.right != null ==> n.right in nodes && n.right.hi - n.right.lo < n.hi - n.lo)
      ensures n.lo < n.hi
      ensures Sub(n) == Sub(n.left) + {n} + Sub(n.right) && InOrder(n) == InOrder(n.left) + [n] + InOrder(n.right)
    {
      assert Linked(n);
    }

    lemma {:induction false} InOrderSorted(n: Node?)
      requires LinksOk() && (n != null ==> n in nodes)
      ensures Sorted(InOrder(n))
      ensures Elements(InOrder(n)) == Sub(n)
      decreases if n == null then 0 else n.hi - n.lo
    {
      if n != null {
        hide *;
        Parts(n);
        SubBounds(n);
        InOrderSorted(n.left);
        InOrderSorted(n.right);
        SortedJoin(InOrder(n.left), n, InOrder(n.right));
      }
    }

    // The in-order traversal lists every node once, in increasing key order.
    lemma OrderSorted()
      requires LinksOk()
      ensures Sorted(Order())
      ensures Elements(Order()) == nodes
    {
      SubRoot();
      InOrderSorted(root);
    }

    lemma DistinctKeys(x: Node)
      requires LinksOk() && x in nodes
      ensures forall n :: n in nodes && n != x ==> n.key != x.key
    {
      OrderSorted();
      var s := Order();
      assert x in Elements(s);
      forall n | n in nodes && n != x ensures n.key != x.key { assert n in Elements(s); }
    }

    constructor ()
      ensures Valid() && nodes == {} && Order() == []
    {
      root, nodes, lo, hi := null, {}, 0, 0;
    }

    // ----- rotations -----

    twostate predicate Kept(n: Node)
      reads n
    {
      && n.left == old(n.left) && n.right == old(n.right) && n.parent == old(n.parent)
      && n.lo == old(n.lo) && n.hi == old(n.hi)
    }

    // The fields of the nodes around a rotation, and of every other node.
    twostate predicate Rotated(t: Turn)
      requires t.elm in old(nodes) && t.elm in nodes
      requires old(t.Riser()) != null && old(t.Riser()) in nodes
      requires old(t.Mover()) != null ==> old(t.Mover()) in nodes
      requires old(t.elm.parent) != null ==> old(t.elm.parent) in nodes
      reads this, nodes
    {
      var elm, d, tmp := t.elm, t.d, old(t.Riser());
      var b, p := old(t.Mover()), old(elm.parent);
      && nodes == old(nodes) && lo == old(lo) && hi == old(hi)
      && root == (if old(root) == elm then tmp else old(root))
      && elm.Kid(d) == old(elm.Kid(d)) && elm.Kid(Opp(d)) == b && elm.parent == tmp
      && elm.lo == (if d == L then old(elm.lo) else tmp.key) && elm.hi == (if d == L then tmp.key else old(elm.hi))
      && tmp.Kid(d) == elm && tmp.Kid(Opp(d)) == old(tmp.Kid(Opp(d))) && tmp.parent == p && tmp.lo == old(elm.lo)
      && tmp.hi == old(elm.hi)
      && (b != null ==>
            && b.left == old(b.left) && b.right == old(b.right) && b.parent == elm
            && b.lo == old(b.lo) && b.hi == old(b.hi))
      && (p != null ==>
            && p.left == (if old(p.left) == elm then tmp else old(p.left))
            && p.right == (if old(p.left) == elm then old(p.right) else tmp)
            && p.parent == old(p.parent) && p.lo == old(p.lo) && p.hi == old(p.hi))
      && (forall n :: n in nodes && n !in {elm, tmp, b, p} ==> Kept(n))
    }

    // The link to gone from above now leads to elm.
    method RedirectParent(gone: Node, elm: Node)
      requires gone.parent != null ==> gone.parent in nodes
      modifies this`root, nodes`left, nodes`right
      ensures root == if gone.parent == null then elm else old(root)
      ensures gone.parent != null ==>
        && gone.parent.left == (if old(gone.parent.left) == gone then elm else old(gone.parent.left))
        && gone.parent.right == (if old(gone.parent.left) == gone then old(gone.parent.right) else elm)
      ensures forall n :: n in nodes && n != gone.parent ==> n.left == old(n.left) && n.right == old(n.right)
    {
      if gone.parent != null {
        if gone.parent.left == gone {
          gone.parent.left := elm;
        } else {
          gone.parent.right := elm;
        }
      } else {
        root := elm;
      }
    }

    ghost method SinkBounds(elm: Node, tmp: Node, d: Dir)
      requires elm != tmp
      modifies elm`lo, elm`hi, tmp`lo, tmp`hi
      ensures tmp.lo == old(elm.lo) && tmp.hi == old(elm.hi)
      ensures elm.lo == (if d == L then old(elm.lo) else tmp.key) && elm.hi == (if d == L then tmp.key else old(elm.hi))
    {
      tmp.lo, tmp.hi := elm.lo, elm.hi;
      if d == L { elm.hi := tmp.key; } else { elm.lo := tmp.key; }
    }

    method RotateLeftFields(elm: Node)
      requires LinksOk() && elm in nodes && elm.right != null
      modifies this`root, nodes`left, nodes`right, nodes`parent, nodes`lo, nodes`hi
      ensures old(Linked(elm)) && old(Linked(elm.right)) && Rotated(Turn(elm, L))
    {
      assert Linked(elm);
      var tmp := elm.right;
      assert Linked(tmp);
      assert tmp.left != null ==> Linked(tmp.left);
      assert elm.parent != null ==> Linked(elm.parent);
      elm.right := tmp.left;
      if elm.right != null {
        tmp.left.parent := elm;
      }
      tmp.parent := elm.parent;
      RedirectParent(elm, tmp);
      tmp.left := elm;
      elm.parent := tmp;
      SinkBounds(elm, tmp, L);
    }

    method RotateRightFields(elm: Node)
      requires LinksOk() && elm in nodes && elm.left != null
      modifies this`root, nodes`left, nodes`right, nodes`parent, nodes`lo, nodes`hi
      ensures old(Linked(elm)) && old(Linked(elm.left)) && Rotated(Turn(elm, R))
    {
      assert Linked(elm);
      var tmp := elm.left;
      assert Linked(tmp);
      assert tmp.right != null ==> Linked(tmp.right);
      assert elm.parent != null ==> Linked(elm.parent);
      elm.left := tmp.right;
      if elm.left != null {
        tmp.right.parent := elm;
      }
      tmp.parent := elm.parent;
      RedirectParent(elm, tmp);
      tmp.right := elm;
      elm.parent := tmp;
      SinkBounds(elm, tmp, R);
    }

    twostate lemma RotatedInner(t: Turn)
      requires old(LinksOk()) && t.elm in old(nodes) && old(t.Riser()) != null && nodes == old(nodes)
      requires old(Linked(t.elm)) && old(Linked(t.Riser())) && Rotated(t)
      ensures Linked(t.elm) && Linked(old(t.Riser()))
    {
      assert old(t.elm.parent) != null ==> old(Linked(t.elm.parent));
      assert old(t.Mover()) != null ==> old(Linked(t.Mover()));
    }

    twostate lemma RotatedMover(t: Turn)
      requires old(LinksOk()) && t.elm in old(nodes) && old(t.Riser()) != null && nodes == old(nodes)
      requires old(Linked(t.elm)) && old(Linked(t.Riser())) && Rotated(t) && old(t.Mover()) != null
      ensures Linked(old(t.Mover()))
    {
      assert old(t.elm.parent) != null ==> old(Linked(t.elm.parent));
      assert old(Linked(t.Mover()));
    }

    twostate lemma RotatedParent(t: Turn)
      requires old(LinksOk()) && t.elm in old(nodes) && old(t.Riser()) != null && nodes == old(nodes)
      requires old(Linked(t.elm)) && old(Linked(t.Riser())) && Rotated(t) && old(t.elm.parent) != null
      ensures Linked(old(t.elm.parent))
    {
      assert old(Linked(t.elm.parent));
      assert old(t.Mover()) != null ==> old(Linked(t.Mover()));
    }

    twostate lemma RotatedAway(p: (Turn, Node))
      requires old(LinksOk()) && p.0.elm in old(nodes) && old(p.0.Riser()) != null && nodes == old(nodes)
      requires old(Linked(p.0.elm)) && old(Linked(p.0.Riser())) && Rotated(p.0)
      requires p.1 in nodes && p.1 !in {p.0.elm, old(p.0.Riser()), old(p.0.Mover()), old(p.0.elm.parent)}
      ensures Linked(p.1)
    {
      assert old(Linked(p.1)) && Kept(p.1);
    }

    twostate lemma RotatedLinks(t: Turn)
      requires old(LinksOk()) && t.elm in old(nodes) && old(t.Riser()) != null && nodes == old(nodes)
      requires old(Linked(t.elm)) && old(Linked(t.Riser())) && Rotated(t)
      ensures LinksOk()
    {
      RotatedInner(t);
      if old(t.Mover()) != null { RotatedMover(t); }
      if old(t.elm.parent) != null { RotatedParent(t); }
      forall n | n in nodes ensures Linked(n) {
        if n !in {t.elm, old(t.Riser()), old(t.Mover()), old(t.elm.parent)} {
          RotatedAway((t, n));
        }
      }
    }

    ghost function Side(n: Node, p: Node): Dir
      reads p
    {
      if p.left == n then L else R
    }

    // A rotation by itself leaves the colour conditions of all but the nodes around it alone; the node
    // above now has the riser as its child.
    twostate predicate ColorsKept(t: Turn)
      reads *
    {
      && (forall n {:trigger BhOk(n)} ::
            n in nodes && n in old(nodes) && n !in {t.elm, old(t.Riser()), old(t.elm.parent)} ==>
            BhOk(n) == old(BhOk(n)))
      && (old(t.elm.parent) != null && old(t.elm.parent) in nodes && old(t.elm.parent in nodes && t.Riser() != null) ==>
            BhOk(old(t.elm.parent)) == old(BhSide(t.elm.parent, Side(t.elm, t.elm.parent), t.Riser().bh)))
      && (forall n {:trigger RedOk(n)} ::
            n in nodes && n in old(nodes) && n !in {t.elm, old(t.Riser()), old(t.Mover())} ==>
            RedOk(n) == old(RedOk(n)))
    }

    twostate lemma RotatedColors(t: Turn)
      requires old(LinksOk()) && t.elm in old(nodes) && old(t.Riser()) != null && nodes == old(nodes)
      requires old(Linked(t.elm)) && old(Linked(t.Riser())) && Rotated(t)
      requires forall n :: n in nodes ==> n.color == old(n.color) && n.bh == old(n.bh)
      ensures ColorsKept(t)
    {
      if old(t.elm.parent) != null { assert old(Linked(t.elm.parent)); }
      forall n | n in nodes && n !in {t.elm, old(t.Riser()), old(t.elm.parent)} ensures BhOk(n) == old(BhOk(n)) {
        assert old(Linked(n));
        if n != old(t.Mover()) { assert Kept(n); }
      }
      forall n | n in nodes && n !in {t.elm, old(t.Riser()), old(t.Mover())} ensures RedOk(n) == old(RedOk(n)) {
        assert old(Linked(n));
        if n != old(t.elm.parent) { assert Kept(n); }
      }
    }

    method RotateLeft(elm: Node)
      requires LinksOk() && elm in nodes && elm.right != null
      modifies this`root, nodes`left, nodes`right, nodes`parent, nodes`lo, nodes`hi
      ensures LinksOk()
      ensures old(Linked(elm)) && old(Linked(elm.right)) && Rotated(Turn(elm, L))
      ensures ColorsKept(Turn(elm, L))
    {
      RotateLeftFields(elm);
      RotatedLinks(Turn(elm, L));
      RotatedColors(Turn(elm, L));
    }

    method RotateRight(elm: Node)
      requires LinksOk() && elm in nodes && elm.left != null
      modifies this`root, nodes`left, nodes`right, nodes`parent, nodes`lo, nodes`hi
      ensures LinksOk()
      ensures old(Linked(elm)) && old(Linked(elm.left)) && Rotated(Turn(elm, R))
      ensures ColorsKept(Turn(elm, R))
    {
      RotateRightFields(elm);
      RotatedLinks(Turn(elm, R));
      RotatedColors(Turn(elm, R));
    }

    // ----- insertion -----

    // The tree while elm, a red node, may still have a red parent.
    ghost predicate Inserting(elm: Node)
      reads this, nodes
    {
      && LinksOk() && elm in nodes && IsRed(elm)
      && (IsRed(root) ==> root == elm)
      && (forall n {:trigger BhOk(n)} :: n in nodes ==> BhOk(n))
      && (forall n {:trigger RedOk(n)} :: n in nodes && n != elm ==> RedOk(n))
    }

    // RB_SET_BLACKRED, with the new black heights of the two nodes.
    method SetBlackRed(black: Node, red: Node, ghost blackBh: nat, ghost redBh: nat)
      requires black in nodes && red in nodes && black != red
      modifies black`color, black`bh, red`color, red`bh
      ensures black.color == Black && red.color == Red && black.bh == blackBh && red.bh == redBh
    {
      black.color := Black;
      red.color := Red;
      black.bh := blackBh;
      red.bh := redBh;
    }

    method Blacken(n: Node)
      requires n in nodes
      modifies n`color, n`bh
      ensures n.color == Black && n.bh == old(n.bh) + 1 - Weight(old(n.color))
    {
      if n.color == Red { n.bh := n.bh + 1; }
      n.color := Black;
    }

    method PaintPush(parent: Node, gparent: Node, tmp: Node)
      requires parent in nodes && gparent in nodes && tmp in nodes && parent != gparent && tmp != parent &&
        tmp != gparent
      requires parent.color == Red && tmp.color == Red
      modifies parent`color, parent`bh, tmp`color, tmp`bh, gparent`color, gparent`bh
      ensures parent.color == Black && tmp.color == Black && gparent.color == Red
      ensures parent.bh == old(parent.bh) + 1 && tmp.bh == old(tmp.bh) + 1 && gparent.bh == old(gparent.bh)
    {
      Blacken(tmp);
      SetBlackRed(parent, gparent, parent.bh + 1, gparent.bh);
    }

    // Red parent and red uncle: push the blackness of gparent down to both.
    method PushBlack(elm: Node, parent: Node, gparent: Node, tmp: Node)
      requires Inserting(elm) && parent == elm.parent && parent in nodes && IsRed(parent)
      requires gparent == parent.parent && gparent in nodes && tmp in nodes && IsRed(tmp) && tmp != parent
      requires (gparent.left == parent && gparent.right == tmp) || (gparent.left == tmp && gparent.right == parent)
      modifies nodes`color, nodes`bh
      ensures Inserting(gparent)
    {
      hide Kept;
      assert Linked(elm) && Linked(parent) && Linked(gparent) && Linked(tmp);
      assert BhOk(gparent) && BhOk(parent) && BhOk(tmp) && RedOk(parent) && RedOk(tmp);
      PaintPush(parent, gparent, tmp);
      assert BhOk(gparent) && BhOk(parent) && BhOk(tmp);
      forall n | n in nodes && n !in {gparent, parent, tmp} ensures BhOk(n) {
        assert Linked(n) && old(BhOk(n));
      }
      forall n | n in nodes && n != gparent ensures RedOk(n) {
        assert Linked(n);
        assert n != elm ==> old(RedOk(n));
      }
    }

    // What must hold around a rotation for the colour conditions to hold after it, where the black
    // height of the node x, if any, is left unbalanced ...
    ghost predicate Near(t: Turn, x: Node?)
      reads this, nodes, t.elm, t.elm.Kid(Opp(t.d))
    {
      var g, y := t.elm, t.Riser();
      && LinksOk() && g in nodes && y != null && y in nodes
      && (g != x ==> Bh(t.Mover()) == Bh(g.Kid(t.d)) && g.bh == Bh(t.Mover()) + Weight(g.color))
      && Bh(y.Kid(Opp(t.d))) == g.bh && y.bh == g.bh + Weight(y.color)
      && !(g.color == Red && (y.color == Red || IsRed(t.Mover()))) && !(y.color == Red && IsRed(g.parent))
    }

    // ... above it ...
    ghost predicate Above(t: Turn, x: Node?)
      reads this, nodes, t.elm, t.elm.Kid(Opp(t.d))
    {
      t.elm.parent != null && t.elm.parent != x ==>
        t.Riser() != null && t.elm.parent in nodes && BhSide(t.elm.parent, Side(t.elm, t.elm.parent), t.Riser().bh)
    }

    // ... and away from it.
    ghost predicate Far(t: Turn)
      reads this, nodes, t.elm, t.elm.Kid(Opp(t.d))
    {
      && (forall n {:trigger BhOk(n)} :: n in nodes && n !in {t.elm, t.Riser(), t.elm.parent} ==> BhOk(n))
      && (forall n {:trigger RedOk(n)} :: n in nodes && n !in {t.elm, t.Riser(), t.Mover()} ==> RedOk(n))
    }

    method RotateBalanced(t: Turn, ghost x: Node?)
      requires Near(t, x) && Above(t, x) && Far(t) && x != t.Riser() && (x != null ==> x == t.elm || x == t.elm.parent)
      modifies this`root, nodes`left, nodes`right, nodes`parent, nodes`lo, nodes`hi
      ensures LinksOk()
      ensures old(Linked(t.elm)) && old(Linked(t.Riser())) && Rotated(t)
      ensures forall n {:trigger BhOk(n)} :: n in nodes && n != x ==> BhOk(n)
      ensures forall n {:trigger RedOk(n)} :: n in nodes ==> RedOk(n)
    {
      hide Linked, Kept, Side, BhSide;
      assert Linked(t.elm) && Linked(t.Riser());
      if t.d == L { RotateLeft(t.elm); } else { RotateRight(t.elm); }
    }

    // Before a rotation only the nodes on its outer path are painted.
    twostate predicate Painted(t: Turn)
      reads *
    {
      && nodes == old(nodes) && t.elm in nodes && old(LinksOk()) && LinksOk()
      && t.Riser() != null && t.Riser() in nodes
      && (forall n :: n in nodes && n in old(nodes) ==>
            n.left == old(n.left) && n.right == old(n.right) && n.parent == old(n.parent))
      && (forall n :: n in nodes && n in old(nodes) && n !in {t.elm, t.Riser(), t.Riser().Kid(Opp(t.d))} ==>
            n.color == old(n.color) && n.bh == old(n.bh))
    }

    // RB_SET_BLACKRED of the riser and elm, which exchange their black heights.
    twostate predicate Exchanged(t: Turn)
      reads *
    {
      && Painted(t) && t.elm in old(nodes) && t.Riser() in old(nodes) && old(t.Riser()) == t.Riser()
      && t.elm.color == Red && t.Riser().color == Black
      && t.elm.bh == old(t.Riser().bh) && t.Riser().bh == old(t.elm.bh)
      && (forall n :: n in nodes && n in old(nodes) && n !in {t.elm, t.Riser()} ==>
            n.color == old(n.color) && n.bh == old(n.bh))
    }

    twostate lemma PaintFar(t: Turn)
      requires Painted(t)
      requires old(forall n {:trigger BhOk(n)} :: n in nodes && n !in {t.elm, t.elm.parent} ==> BhOk(n))
      requires old(forall n {:trigger RedOk(n)} ::
                     n in nodes && n !in {t.elm, t.Riser(), t.Riser().Kid(Opp(t.d))} ==> RedOk(n))
      requires var o := t.Riser().Kid(Opp(t.d)); o != null ==>
        o in nodes && BhOk(o) && RedOk(o) && (o.color == Red ==> old(IsRed(o)))
      requires t.elm.color == Red ==> !IsRed(t.elm.Kid(t.d))
      ensures Far(t)
    {
      assert Linked(t.elm) && Linked(t.Riser());
      forall n | n in nodes && n !in {t.elm, t.Riser(), t.elm.parent} ensures BhOk(n) {
        assert Linked(n) && old(BhOk(n));
      }
      forall n | n in nodes && n !in {t.elm, t.Riser(), t.Mover()} ensures RedOk(n) {
        if n != t.Riser().Kid(Opp(t.d)) { assert Linked(n) && old(RedOk(n)); }
      }
    }

    // If the riser takes over the black height of elm, the node above sees no difference.
    twostate lemma PaintAbove(t: Turn)
      requires Painted(t) && t.elm in old(nodes) && t.elm.parent != null
      requires t.Riser().bh == old(t.elm.bh)
      requires old(forall n {:trigger BhOk(n)} :: n in nodes && n != t.elm ==> BhOk(n))
      ensures Above(t, null)
    {
      assert Linked(t.elm) && Linked(t.Riser()) && Linked(t.elm.parent);
      assert old(BhOk(t.elm.parent));
    }

    twostate lemma LiftNear(t: Turn)
      requires Exchanged(t)
      requires old(forall n {:trigger BhOk(n)} :: n in nodes ==> BhOk(n))
      requires old(forall n {:trigger RedOk(n)} :: n in nodes && n != t.Riser().Kid(Opp(t.d)) ==> RedOk(n))
      requires old(IsRed(t.Riser()))
      ensures Near(t, null)
    {
      assert Linked(t.elm) && Linked(t.Riser());
      assert t.Mover() != null ==> Linked(t.Mover()) && old(RedOk(t.Mover()));
      assert t.Riser().Kid(Opp(t.d)) != null ==> Linked(t.Riser().Kid(Opp(t.d)));
      assert old(BhOk(t.elm) && BhOk(t.Riser()) && RedOk(t.Riser()));
    }

    twostate lemma LiftReady(t: Turn)
      requires Exchanged(t)
      requires t.Riser().Kid(Opp(t.d)) != null && old(Inserting(t.Riser().Kid(Opp(t.d))))
      requires old(IsRed(t.Riser()) && !IsRed(t.elm.Kid(t.d)))
      ensures Near(t, null) && Above(t, null) && Far(t)
    {
      assert Linked(t.elm) && Linked(t.Riser());
      var o := t.Riser().Kid(Opp(t.d));
      assert Linked(o) && old(BhOk(o));
      assert BhOk(o) && RedOk(o) && !IsRed(t.elm.Kid(t.d));
      LiftNear(t);
      if t.elm.parent != null { PaintAbove(t); }
      PaintFar(t);
    }

    // Red parent on the same side as elm, black uncle: parent takes the place of gparent.
    method LiftParent(elm: Node, parent: Node, gparent: Node, d: Dir)
      requires Inserting(elm) && parent == elm.parent && parent in nodes && IsRed(parent)
      requires gparent == parent.parent && gparent in nodes
      requires parent.Kid(d) == elm && gparent.Kid(d) == parent && !IsRed(gparent.Kid(Opp(d)))
      modifies this`root, nodes`left, nodes`right, nodes`parent, nodes`lo, nodes`hi, nodes`color, nodes`bh
      ensures Inserting(elm) && RedOk(elm)
    {
      assert Linked(elm) && Linked(parent) && Linked(gparent);
      SetBlackRed(parent, gparent, gparent.bh, parent.bh);
      LiftReady(Turn(gparent, Opp(d)));
      RotateBalanced(Turn(gparent, Opp(d)), null);
    }

    // A rotation by itself, of a red node below a red one, keeps the colour conditions but between the two.
    twostate lemma TurnedBh(t: Turn)
      requires t.elm in old(nodes) && old(t.Riser()) != null && old(Inserting(t.Riser())) && nodes == old(nodes) &&
        LinksOk()
      requires old(Linked(t.elm)) && old(Linked(t.Riser())) && old(IsRed(t.elm)) && Rotated(t) && ColorsKept(t)
      requires forall n :: n in nodes ==> n.color == old(n.color) && n.bh == old(n.bh)
      ensures forall n {:trigger BhOk(n)} :: n in nodes ==> BhOk(n)
    {
      assert old(BhOk(t.elm)) && old(BhOk(t.Riser()));
      if old(t.elm.parent) != null { assert old(Linked(t.elm.parent)) && old(BhOk(t.elm.parent)); }
    }

    twostate lemma TurnedRed(t: Turn)
      requires t.elm in old(nodes) && old(t.Riser()) != null && old(Inserting(t.Riser())) && nodes == old(nodes) &&
        LinksOk()
      requires old(Linked(t.elm)) && old(Linked(t.Riser())) && old(IsRed(t.elm)) && Rotated(t) && ColorsKept(t)
      requires forall n :: n in nodes ==> n.color == old(n.color) && n.bh == old(n.bh)
      ensures forall n {:trigger RedOk(n)} :: n in nodes && n != t.elm ==> RedOk(n)
    {
      assert old(RedOk(t.elm));
      if old(t.Mover()) != null { assert old(Linked(t.Mover())) && old(RedOk(t.Mover())); }
    }

    // Red parent on the other side of gparent than elm of parent, black uncle: elm and parent swap roles.
    method TurnInner(elm: Node, parent: Node, gparent: Node, d: Dir)
      requires Inserting(elm) && parent == elm.parent && parent in nodes && IsRed(parent)
      requires gparent == parent.parent && gparent in nodes
      requires parent.Kid(Opp(d)) == elm && gparent.Kid(d) == parent && !IsRed(gparent.Kid(Opp(d)))
      modifies this`root, nodes`left, nodes`right, nodes`parent, nodes`lo, nodes`hi
      ensures Inserting(parent) && elm in nodes && elm == parent.parent && IsRed(elm)
      ensures gparent == elm.parent && gparent in nodes
      ensures elm.Kid(d) == parent && gparent.Kid(d) == elm && !IsRed(gparent.Kid(Opp(d)))
    {
      hide Kept;
      assert Linked(elm) && Linked(parent) && Linked(gparent) && RedOk(parent);
      if d == L { RotateLeft(parent); } else { RotateRight(parent); }
      TurnedBh(Turn(parent, d));
      TurnedRed(Turn(parent, d));
    }

    method InsertColor(e: Node)
      requires Inserting(e)
      modifies this`root, nodes`left, nodes`right, nodes`parent, nodes`lo, nodes`hi, nodes`color, nodes`bh
      ensures Valid()
    {
      var elm: Node := e;
      while elm.parent != null && elm.parent.color == Red
        invariant Inserting(elm)
        decreases if IsRed(elm.parent) then 1 else 0, (hi - lo) - (elm.hi - elm.lo)
      {
        assert Linked(elm);
        var parent := elm.parent;
        assert Linked(parent);
        var gparent := parent.parent;
        assert Linked(gparent);
        if parent == gparent.left {
          var tmp := gparent.right;
          if tmp != null && tmp.color == Red {
            PushBlack(elm, parent, gparent, tmp);
            elm := gparent;
            continue;
          }
          if parent.right == elm {
            TurnInner(elm, parent, gparent, L);
            parent, elm := elm, parent;
          }
          LiftParent(elm, parent, gparent, L);
        } else {
          var tmp := gparent.left;
          if tmp != null && tmp.color == Red {
            PushBlack(elm, parent, gparent, tmp);
            elm := gparent;
            continue;
          }
          if parent.left == elm {
            TurnInner(elm, parent, gparent, R);
            parent, elm := elm, parent;
          }
          LiftParent(elm, parent, gparent, R);
        }
      }
      BlackenRoot(elm);
    }

    method BlackenRoot(ghost elm: Node)
      requires Inserting(elm) && (elm.parent == null || !IsRed(elm.parent))
      modifies nodes`color, nodes`bh
      ensures Valid()
    {
      assert Linked(elm) && RedOk(elm);
      assert forall n :: n in nodes && n != elm ==> RedOk(n);
      assert BhOk(root);
      Blacken(root);
      forall n | n in nodes ensures BhOk(n) && RedOk(n) {
        assert Linked(n) && old(BhOk(n)) && old(RedOk(n));
      }
    }

    // ----- RB_INSERT -----

    // Widening the interval of a node within that of its parent changes nothing else.
    ghost method Stretch(c: Node, newLo: int, newHi: int)
      requires LinksOk() && c in nodes
      requires lo <= newLo <= c.lo && c.hi <= newHi <= hi
      requires c.parent != null && c.parent.left == c ==> c.parent.lo <= newLo && newHi <= c.parent.key
      requires c.parent != null && c.parent.right == c ==> c.parent.key <= newLo && newHi <= c.parent.hi
      modifies c`lo, c`hi
      ensures LinksOk() && c.lo == newLo && c.hi == newHi
    {
      assert Linked(c);
      c.lo, c.hi := newLo, newHi;
      forall n | n in nodes ensures Linked(n) { assert old(Linked(n)); }
    }

    ghost method StretchRoot(key: int)
      requires LinksOk()
      modifies this`lo, this`hi, nodes`lo, nodes`hi
      ensures LinksOk() && lo < key < hi
      ensures root != null ==> root.lo == lo && root.hi == hi
    {
      lo := if key - 1 < lo then key - 1 else lo;
      hi := if hi < key + 1 then key + 1 else hi;
      forall n | n in nodes ensures Linked(n) { assert old(Linked(n)); }
      if root != null {
        assert Linked(root);
        Stretch(root, lo, hi);
      }
    }

    // The search loop of RB_INSERT: a node with the key, or the place for a new one and the interval
    // it would have there.
    method Locate(key: int) returns (found: Node?, parent: Node?, ghost a: int, ghost b: int)
      requires LinksOk()
      modifies this`lo, this`hi, nodes`lo, nodes`hi
      ensures LinksOk()
      ensures found != null ==> found in nodes && found.key == key
      ensures lo <= a < key < b <= hi
      ensures parent != null ==> parent in nodes
      ensures found == null && parent == null ==> root == null
      ensures found == null && parent != null && key < parent.key ==>
        parent.left == null && parent.lo == a && b == parent.key
      ensures found == null && parent != null && key >= parent.key ==>
        parent.right == null && parent.key == a && b == parent.hi
    {
      StretchRoot(key);
      var tmp := root;
      found, parent := null, null;
      a, b := lo, hi;
      while tmp != null
        invariant LinksOk() && lo <= a < key < b <= hi
        invariant tmp != null ==> tmp in nodes && tmp.lo == a && tmp.hi == b
        invariant parent == null ==> tmp == root
        invariant parent != null ==> parent in nodes
        invariant parent != null && key < parent.key ==> tmp == parent.left && parent.lo == a && b == parent.key
        invariant parent != null && key >= parent.key ==> tmp == parent.right && parent.key == a && b == parent.hi
        decreases b - a
        modifies nodes`lo, nodes`hi
      {
        parent := tmp;
        assert Linked(tmp);
        if key < parent.key {
          tmp := tmp.left;
          b := parent.key;
        } else if key > parent.key {
          tmp := tmp.right;
          a := parent.key;
        } else {
          found := tmp;
          return;
        }
        if tmp != null { assert Linked(tmp); Stretch(tmp, a, b); }
      }
    }

    method AttachFields(elm: Node, parent: Node?, ghost a: int, ghost b: int)
      requires elm !in nodes && (parent != null ==> parent in nodes)
      modifies this`root, this`nodes, elm, nodes`left, nodes`right
      ensures elm.parent == parent && elm.left == null && elm.right == null && elm.color == Red
      ensures elm.lo == a && elm.hi == b && elm.bh == 0
      ensures root == if parent == null then elm else old(root)
      ensures nodes == old(nodes) + {elm}
      ensures forall n :: n in old(nodes) ==>
        && n.left == (if n == parent && elm.key < parent.key then elm else old(n.left))
        && n.right == (if n == parent && elm.key >= parent.key then elm else old(n.right))
    {
      elm.parent := parent;
      elm.left := null;
      elm.right := null;
      elm.color := Red;
      elm.lo, elm.hi, elm.bh := a, b, 0;
      if parent != null {
        if elm.key < parent.key {
          parent.left := elm;
        } else {
          parent.right := elm;
        }
      } else {
        root := elm;
      }
      nodes := nodes + {elm};
    }

    method Attach(elm: Node, parent: Node?, ghost a: int, ghost b: int)
      requires Valid() && elm !in nodes && lo <= a < elm.key < b <= hi
      requires parent == null ==> root == null
      requires parent != null ==> parent in nodes
      requires parent != null && elm.key < parent.key ==> parent.left == null && parent.lo == a && b == parent.key
      requires parent != null && elm.key >= parent.key ==> parent.right == null && parent.key == a && b == parent.hi
      modifies this`root, this`nodes, elm, nodes`left, nodes`right
      ensures Inserting(elm) && nodes == old(nodes) + {elm}
    {
      AttachFields(elm, parent, a, b);
      forall n | n in nodes ensures Linked(n) { assert n != elm ==> old(Linked(n)); }
      AttachedColors(elm);
    }

    // A red leaf in the place of null changes no black height.
    twostate lemma AttachedColors(new elm: Node)
      requires old(Valid()) && elm !in old(nodes) && nodes == old(nodes) + {elm} && LinksOk()
      requires elm.left == null && elm.right == null && elm.color == Red && elm.bh == 0
      requires forall n :: n in old(nodes) ==>
        && n.parent == old(n.parent) && n.color == old(n.color) && n.bh == old(n.bh)
        && (n.left == old(n.left) || (old(n.left) == null && n.left == elm))
        && (n.right == old(n.right) || (old(n.right) == null && n.right == elm))
      ensures forall n {:trigger BhOk(n)} :: n in nodes ==> BhOk(n)
      ensures forall n {:trigger RedOk(n)} :: n in nodes && n != elm ==> RedOk(n)
    {
      forall n | n in nodes ensures BhOk(n) { assert n != elm ==> old(Linked(n) && BhOk(n)); }
      forall n | n in nodes && n != elm ensures RedOk(n) { assert old(Linked(n) && RedOk(n)); }
    }

    // Nodes whose keys fall inside the interval of x lie below x.
    lemma {:induction false} Inside(x: Node, m: Node)
      requires LinksOk() && x in nodes && m in nodes && x.lo < m.key < x.hi
      ensures m in Sub(x)
      decreases (hi - lo) - (x.hi - x.lo)
    {
      assert Linked(x);
      if x.parent == null {
        SubRoot();
      } else {
        var p := x.parent;
        assert Linked(p);
        Inside(p, m);
        SubBounds(p);
      }
    }

    // A node whose place in the search is free is not in the tree.
    lemma Vacant(p: Node, n: Node)
      requires LinksOk() && p in nodes && p.lo < n.key < p.hi && n.key != p.key
      requires if n.key < p.key then p.left == null else p.right == null
      ensures n !in nodes
    {
      if n in nodes {
        Inside(p, n);
        SubBounds(p);
      }
    }

    // RB_INSERT adds elm, or returns the node with the same key, which may be elm, and leaves the tree alone.
    method Insert(elm: Node) returns (r: Node?)
      requires Valid()
      modifies this, elm, nodes
      ensures Valid()
      ensures r == null <==> forall n :: n in old(nodes) ==> n.key != elm.key
      ensures r != null ==>
        r in nodes && r.key == elm.key && nodes == old(nodes) && root == old(root) && Order() == old(Order())
      ensures r != null ==>
        forall n :: n in nodes ==>
          n.left == old(n.left) && n.right == old(n.right) && n.parent == old(n.parent) && n.color == old(n.color)
      ensures r == null ==> nodes == old(nodes) + {elm} && Without(Order(), elm) == old(Order())
    {
      hide Elements, Sorted, InOrder, Order, Inserting, LinksOk, Sub, Without;
      ghost var before := Order();
      OrderSorted();
      var found, parent, a, b := Locate(elm.key);
      if found != null {
        OrderSorted();
        SortedUnique(Order(), before);
        return found;
      }
      if parent != null {
        assert Linked(parent);
        Vacant(parent, elm);
      }
      Attach(elm, parent, a, b);
      DistinctKeys(elm);
      InsertColor(elm);
      OrderSorted();
      WithoutSorted(Order(), elm);
      SortedUnique(Without(Order(), elm), before);
      return null;
    }

    // ----- RB_REMOVE -----

    // The paths through elm, a child of parent, are one black node short.
    ghost predicate Short(parent: Node, elm: Node?, d: Dir)
      requires parent in nodes
      reads this`nodes, nodes`left, nodes`right, nodes`color, nodes`bh
    {
      parent.Kid(d) == elm && BhSide(parent, d, Bh(elm) + 1)
    }

    ghost predicate Removing(parent: Node?, elm: Node?)
      reads this, nodes
    {
      && LinksOk() && (elm != null ==> elm in nodes && elm.parent == parent)
      && (parent == null ==> elm == root)
      && (parent != null ==> parent in nodes && (Short(parent, elm, L) || Short(parent, elm, R)))
      && (IsRed(root) ==> root == elm)
      && (forall n {:trigger BhOk(n)} :: n in nodes && n != parent ==> BhOk(n))
      && (forall n {:trigger RedOk(n)} :: n in nodes && !(IsRed(elm) && (n == elm || n.parent == elm)) ==> RedOk(n))
    }

    // The same with a black elm below parent on side d.
    ghost predicate RemovingAt(parent: Node, elm: Node?, d: Dir)
      reads this, nodes
    {
      && LinksOk() && parent in nodes && !IsRed(elm) && !IsRed(root)
      && (elm != null ==> elm in nodes && elm.parent == parent)
      && Short(parent, elm, d)
      && (forall n {:trigger BhOk(n)} :: n in nodes && n != parent ==> BhOk(n))
      && (forall n {:trigger RedOk(n)} :: n in nodes ==> RedOk(n))
    }

    // A red sibling is rotated above parent, so that the new sibling is black.
    method RaiseSibling(parent: Node, elm: Node?, d: Dir, tmp: Node) returns (sib: Node)
      requires RemovingAt(parent, elm, d) && tmp == parent.Kid(Opp(d)) && IsRed(tmp)
      modifies this`root, nodes`left, nodes`right, nodes`parent, nodes`lo, nodes`hi, nodes`color, nodes`bh
      ensures RemovingAt(parent, elm, d) && IsRed(parent) && sib in nodes && sib == parent.Kid(Opp(d)) && !IsRed(sib)
    {
      hide Far;
      assert Linked(parent) && Linked(tmp) && BhOk(tmp) && RedOk(tmp);
      SetBlackRed(tmp, parent, parent.bh, tmp.bh);
      RaiseReady(Turn(parent, d));
      RotateSibling(Turn(parent, d), elm);
      assert Linked(parent);
      sib := parent.Kid(Opp(d));
    }

    method RotateSibling(t: Turn, ghost elm: Node?)
      requires Near(t, t.elm) && Above(t, t.elm) && Far(t) && t.elm.Kid(t.d) == elm
      requires !IsRed(elm) && (root == t.elm || !IsRed(root)) && (elm != null ==> elm in nodes && elm.parent == t.elm)
      requires t.Riser().color == Black && t.elm.color == Red && Bh(t.Mover()) == Bh(elm) + 1 && t.elm.bh == Bh(elm) + 1
      modifies this`root, nodes`left, nodes`right, nodes`parent, nodes`lo, nodes`hi
      ensures RemovingAt(t.elm, elm, t.d) && t.elm.Kid(Opp(t.d)) == old(t.Mover()) && !IsRed(old(t.Mover()))
    {
      RotateBalanced(t, t.elm);
    }

    twostate lemma RaiseNear(t: Turn)
      requires Exchanged(t) && old(RemovingAt(t.elm, t.elm.Kid(t.d), t.d)) && old(IsRed(t.Riser()))
      ensures Near(t, t.elm)
    {
      assert Linked(t.elm) && Linked(t.Riser());
      assert t.Riser().Kid(Opp(t.d)) != null ==> Linked(t.Riser().Kid(Opp(t.d)));
      assert t.Mover() != null ==> Linked(t.Mover()) && old(RedOk(t.Mover()));
      assert old(BhOk(t.Riser())) && old(RedOk(t.Riser()));
    }

    twostate lemma RaiseReady(t: Turn)
      requires Exchanged(t) && old(RemovingAt(t.elm, t.elm.Kid(t.d), t.d)) && old(IsRed(t.Riser()))
      ensures Near(t, t.elm) && Above(t, t.elm) && Far(t)
    {
      hide Kept, Far, BhSide, Side, Near, Weight, Short;
      RaiseNear(t);
      if t.elm.parent != null { PaintAbove(t); }
      assert Linked(t.elm) && Linked(t.Riser());
      var o := t.Riser().Kid(Opp(t.d));
      if o != null { assert Linked(o) && old(BhOk(o)) && old(RedOk(o)) && BhOk(o) && RedOk(o); }
      assert !IsRed(t.elm.Kid(t.d));
      PaintFar(t);
    }

    method Redden(n: Node, ghost above: Node)
      requires n in nodes && above in nodes && n != above && n.bh > 0 && above.bh > 0
      modifies n`color, n`bh, above`bh
      ensures n.color == Red && n.bh == old(n.bh) - 1 && above.bh == old(above.bh) - 1
    {
      n.color := Red;
      n.bh := n.bh - 1;
      above.bh := above.bh - 1;
    }

    // A black sibling with two black children turns red, which leaves the paths through parent short.
    method BlackNephews(parent: Node, ghost elm: Node?, ghost d: Dir, tmp: Node)
      requires RemovingAt(parent, elm, d) && tmp == parent.Kid(Opp(d)) && tmp in nodes && !IsRed(tmp)
      requires !IsRed(tmp.left) && !IsRed(tmp.right)
      modifies nodes`color, nodes`bh
      ensures Removing(parent.parent, parent) && parent.color == old(parent.color)
    {
      assert Linked(parent) && Linked(tmp) && BhOk(tmp);
      Redden(tmp, parent);
      NephewsDone(Turn(parent, d));
    }

    twostate predicate Reddened(t: Turn)
      reads *
    {
      && Painted(t) && t.elm in old(nodes) && t.Riser() in old(nodes) && old(t.Riser()) == t.Riser()
      && root == old(root)
      && old(RemovingAt(t.elm, t.elm.Kid(t.d), t.d))
      && old(!IsRed(t.Riser()) && !IsRed(t.Riser().left) && !IsRed(t.Riser().right))
      && t.Riser().color == Red && t.elm.color == old(t.elm.color)
      && t.elm.bh == old(t.elm.bh) - 1 && t.Riser().bh == old(t.Riser().bh) - 1
      && (forall n :: n in nodes && n in old(nodes) && n !in {t.elm, t.Riser()} ==>
            n.color == old(n.color) && n.bh == old(n.bh))
    }

    twostate lemma NephewsShort(t: Turn)
      requires Reddened(t)
      ensures BhOk(t.elm) && BhOk(t.Riser())
      ensures t.elm.parent != null ==> t.elm.parent in nodes && Short(t.elm.parent, t.elm, Side(t.elm, t.elm.parent))
    {
      assert Linked(t.elm) && Linked(t.Riser()) && old(BhOk(t.Riser()));
      if t.elm.parent != null { assert Linked(t.elm.parent) && old(BhOk(t.elm.parent)); }
    }

    twostate lemma NephewsDone(t: Turn)
      requires Reddened(t)
      ensures Removing(t.elm.parent, t.elm)
    {
      hide BhSide, Short, Kept, Weight;
      var g, y, p := t.elm, t.Riser(), t.elm.parent;
      assert Linked(g) && Linked(y);
      NephewsShort(t);
      forall n | n in nodes && n !in {g, y, p} ensures BhOk(n) {
        assert Linked(n) && old(BhOk(n));
      }
      forall n | n in nodes && !(IsRed(g) && (n == g || n.parent == g)) ensures RedOk(n) {
        assert Linked(n) && old(RedOk(n));
      }
    }

    // A red inner nephew is rotated above the sibling, so that the outer nephew is red.
    method RaiseNephew(parent: Node, elm: Node?, d: Dir, tmp: Node) returns (sib: Node)
      requires RemovingAt(parent, elm, d) && tmp == parent.Kid(Opp(d)) && tmp in nodes && !IsRed(tmp)
      requires IsRed(tmp.Kid(d)) && !IsRed(tmp.Kid(Opp(d)))
      modifies this`root, nodes`left, nodes`right, nodes`parent, nodes`lo, nodes`hi, nodes`color, nodes`bh
      ensures RemovingAt(parent, elm, d) && parent.color == old(parent.color)
      ensures sib in nodes && sib == parent.Kid(Opp(d)) && !IsRed(sib) && IsRed(sib.Kid(Opp(d)))
    {
      hide Near;
      var oleft := tmp.Kid(d);
      assert Linked(parent) && Linked(tmp) && Linked(oleft);
      SetBlackRed(oleft, tmp, tmp.bh, oleft.bh);
      NephewReady(Turn(tmp, Opp(d)));
      RotateNephew(Turn(tmp, Opp(d)), parent, elm);
      sib := oleft;
    }

    method RotateNephew(t: Turn, parent: Node, ghost elm: Node?)
      requires Near(t, parent) && Above(t, parent) && Far(t) && parent != t.Riser() && parent == t.elm.parent
      requires parent in nodes && !IsRed(elm) && !IsRed(root) && (elm != null ==> elm in nodes && elm.parent == parent)
      requires parent.Kid(Opp(t.d)) == elm && parent.Kid(t.d) == t.elm && t.Riser().color == Black && t.elm.color == Red
      requires t.Riser().bh == Bh(elm) + 1 && parent.bh == Bh(elm) + 1 + Weight(parent.color)
      modifies this`root, nodes`left, nodes`right, nodes`parent, nodes`lo, nodes`hi
      ensures RemovingAt(parent, elm, Opp(t.d)) && parent.Kid(t.d) == old(t.Riser())
      ensures old(t.Riser()) in nodes && old(t.Riser()).Kid(t.d) == t.elm
    {
      RotateBalanced(t, parent);
    }

    twostate lemma NephewNear(t: Turn)
      requires Exchanged(t) && t.elm.parent != null && t.elm.parent in old(nodes)
      requires old(RemovingAt(t.elm.parent, t.elm.parent.Kid(Opp(t.d)), Opp(t.d)))
      requires old(t.elm.color == Black && IsRed(t.Riser()) && !IsRed(t.elm.Kid(t.d)))
      ensures Near(t, t.elm.parent)
    {
      hide BhSide;
      assert Linked(t.elm) && Linked(t.Riser()) && Linked(t.elm.parent);
      assert t.Mover() != null ==> Linked(t.Mover()) && old(RedOk(t.Mover()));
      assert old(BhOk(t.Riser())) && old(RedOk(t.Riser())) && old(BhOk(t.elm));
    }

    twostate lemma NephewReady(t: Turn)
      requires Exchanged(t) && t.elm.parent != null && t.elm.parent in old(nodes)
      requires old(RemovingAt(t.elm.parent, t.elm.parent.Kid(Opp(t.d)), Opp(t.d)))
      requires old(t.elm.color == Black && IsRed(t.Riser()) && !IsRed(t.elm.Kid(t.d)))
      ensures Near(t, t.elm.parent) && Above(t, t.elm.parent) && Far(t)
    {
      hide Kept, Side, Near, Short, Far, BhSide, Weight;
      NephewNear(t);
      assert Linked(t.elm) && Linked(t.Riser());
      var o := t.Riser().Kid(Opp(t.d));
      if o != null { assert Linked(o) && old(BhOk(o)) && old(RedOk(o)) && BhOk(o) && RedOk(o); }
      assert !IsRed(t.elm.Kid(t.d));
      PaintFar(t);
    }

    // A black sibling with a red outer child takes over the place and colour of parent.
    method LiftSibling(parent: Node, ghost elm: Node?, d: Dir, tmp: Node)
      requires RemovingAt(parent, elm, d) && tmp == parent.Kid(Opp(d)) && tmp in nodes && !IsRed(tmp)
      requires IsRed(tmp.Kid(Opp(d)))
      modifies this`root, nodes`left, nodes`right, nodes`parent, nodes`lo, nodes`hi, nodes`color, nodes`bh
      ensures Valid()
    {
      assert Linked(parent) && Linked(tmp);
      PaintLift(parent, tmp, tmp.Kid(Opp(d)));
      SiblingReady(Turn(parent, d));
      RotateBalanced(Turn(parent, d), null);
    }

    method PaintLift(parent: Node, tmp: Node, outer: Node)
      requires parent in nodes && tmp in nodes && outer in nodes && parent != tmp && parent != outer && tmp != outer
      modifies parent`color, parent`bh, tmp`color, tmp`bh, outer`color, outer`bh
      ensures tmp.color == old(parent.color) && parent.color == Black && outer.color == Black
      ensures tmp.bh == old(parent.bh) && parent.bh == old(tmp.bh) && outer.bh == old(tmp.bh)
    {
      tmp.color := parent.color;
      parent.color := Black;
      outer.color := Black;
      tmp.bh, parent.bh, outer.bh := parent.bh, tmp.bh, tmp.bh;
    }

    twostate predicate Lifted(t: Turn)
      reads *
    {
      && Painted(t) && t.elm in old(nodes) && t.Riser() in old(nodes) && old(t.Riser()) == t.Riser()
      && t.Riser().Kid(Opp(t.d)) != null && t.Riser().Kid(Opp(t.d)) in old(nodes) && t.Riser().Kid(Opp(t.d)) in nodes
      && old(RemovingAt(t.elm, t.elm.Kid(t.d), t.d)) && old(!IsRed(t.Riser()) && IsRed(t.Riser().Kid(Opp(t.d))))
      && t.Riser().color == old(t.elm.color) && t.elm.color == Black && t.Riser().Kid(Opp(t.d)).color == Black
      && t.Riser().bh == old(t.elm.bh) && t.elm.bh == old(t.Riser().bh)
      && t.Riser().Kid(Opp(t.d)).bh == old(t.Riser().bh)
    }

    twostate lemma SiblingNear(t: Turn)
      requires Lifted(t)
      ensures Near(t, null)
    {
      assert Linked(t.elm) && Linked(t.Riser()) && Linked(t.Riser().Kid(Opp(t.d)));
      assert old(BhOk(t.Riser())) && old(RedOk(t.elm));
      if t.Mover() != null { assert Linked(t.Mover()); }
    }

    twostate lemma SiblingReady(t: Turn)
      requires Lifted(t)
      ensures Near(t, null) && Above(t, null) && Far(t)
    {
      SiblingNear(t);
      if t.elm.parent != null { PaintAbove(t); }
      var o := t.Riser().Kid(Opp(t.d));
      assert Linked(o) && old(BhOk(t.Riser())) && old(BhOk(o)) && old(RedOk(o));
      assert BhOk(o) && RedOk(o);
      PaintFar(t);
    }

    // A black sibling with a red child ends the repair.
    method BorrowRed(parent: Node, elm: Node?, d: Dir, sib: Node)
      requires RemovingAt(parent, elm, d) && sib == parent.Kid(Opp(d)) && sib in nodes && !IsRed(sib)
      requires IsRed(sib.left) || IsRed(sib.right)
      modifies this`root, nodes`left, nodes`right, nodes`parent, nodes`lo, nodes`hi, nodes`color, nodes`bh
      ensures Valid()
    {
      var tmp := sib;
      assert Linked(tmp);
      if tmp.Kid(Opp(d)) == null || tmp.Kid(Opp(d)).color == Black {
        tmp := RaiseNephew(parent, elm, d, tmp);
      }
      LiftSibling(parent, elm, d, tmp);
    }

    lemma ShortSide(parent: Node?, elm: Node?)
      requires Removing(parent, elm) && !IsRed(elm) && elm != root
      ensures parent != null && RemovingAt(parent, elm, if parent.left == elm then L else R)
    {
      assert Linked(parent);
      assert elm != null ==> Linked(elm);
    }

    // One pass of the loop of RB_REMOVE_COLOR: the repair is over or moves to a wider interval.
    method RepairStep(parent: Node, elm: Node?) returns (p: Node?, e: Node?)
      requires Removing(parent, elm) && !IsRed(elm) && elm != root
      modifies this`root, nodes`left, nodes`right, nodes`parent, nodes`lo, nodes`hi, nodes`color, nodes`bh
      ensures Removing(p, e)
      ensures IsRed(e) || e == root || (p != null && p.hi - p.lo > old(parent.hi - parent.lo))
    {
      hide Kept;
      var d := if parent.left == elm then L else R;
      ShortSide(parent, elm);
      assert Linked(parent);
      var tmp := parent.Kid(Opp(d));
      assert Linked(tmp);
      if tmp.color == Red {
        tmp := RaiseSibling(parent, elm, d, tmp);
        assert Linked(parent) && Linked(tmp);
      }
      if (tmp.left == null || tmp.left.color == Black) && (tmp.right == null || tmp.right.color == Black) {
        if parent.parent != null { assert Linked(parent.parent); }
        BlackNephews(parent, elm, d, tmp);
        return parent.parent, parent;
      }
      BorrowRed(parent, elm, d, tmp);
      return null, root;
    }

    method RemoveColor(p: Node?, e: Node?)
      requires Removing(p, e)
      modifies this`root, nodes`left, nodes`right, nodes`parent, nodes`lo, nodes`hi, nodes`color, nodes`bh
      ensures Valid()
    {
      var parent, elm := p, e;
      while (elm == null || elm.color == Black) && elm != root
        invariant Removing(parent, elm)
        decreases if IsRed(elm) || elm == root then 0 else 1,
          if parent == null then 0 else 1 + (hi - lo) - (parent.hi - parent.lo)
      {
        parent, elm := RepairStep(parent, elm);
        if parent != null { assert Linked(parent); }
      }
      if elm != null {
        BlackenLast(parent, elm);
      }
    }

    // The last step of RB_REMOVE_COLOR pays for the missing black node.
    method BlackenLast(ghost parent: Node?, elm: Node)
      requires Removing(parent, elm) && (IsRed(elm) || elm == root)
      modifies nodes`color, nodes`bh
      ensures Valid()
    {
      assert Linked(elm) && (parent != null ==> Linked(parent));
      Blacken(elm);
      forall n | n in nodes ensures BhOk(n) && RedOk(n) {
        assert Linked(n);
        assert n != parent ==> old(BhOk(n));
        assert !(old(IsRed(elm)) && (n == elm || n.parent == elm)) ==> old(RedOk(n));
      }
    }

    // The links after elm, with child below it, has been unlinked from parent; the fields of elm
    // itself are left as they were.
    twostate predicate Spliced(elm: Node, child: Node?, parent: Node?)
      requires elm in old(nodes)
      reads *
    {
      && child != elm && parent != elm && (child != null ==> child in old(nodes) && child != parent)
      && (parent != null ==> parent in old(nodes))
      && nodes == old(nodes) - {elm} && root == (if parent == null then child else old(root))
      && (forall n :: n in nodes && n in old(nodes) ==> n.parent == if n == child then parent else old(n.parent))
      && (forall n :: n in nodes && n in old(nodes) && n != parent ==> n.left == old(n.left) && n.right == old(n.right))
      && (parent != null && old(parent.left) == elm ==> parent.left == child && parent.right == old(parent.right))
      && (parent != null && old(parent.left) != elm ==> parent.left == old(parent.left) && parent.right == child)
      && elm.left == old(elm.left) && elm.right == old(elm.right) && elm.parent == old(elm.parent)
    }

    method SpliceFields(elm: Node) returns (child: Node?, parent: Node?)
      requires LinksOk() && elm in nodes && (elm.left == null || elm.right == null)
      modifies this`root, this`nodes, nodes`left, nodes`right, nodes`parent
      ensures child == old(if elm.left == null then elm.right else elm.left) && parent == old(elm.parent)
      ensures Spliced(elm, child, parent)
    {
      assert Linked(elm);
      child := if elm.left == null then elm.right else elm.left;
      parent := elm.parent;
      if child != null {
        assert Linked(child);
        child.parent := parent;
      }
      if parent != null {
        assert old(Linked(parent));
        if parent.left == elm {
          parent.left := child;
        } else {
          parent.right := child;
        }
      } else {
        root := child;
      }
      nodes := nodes - {elm};
    }

    method Splice(elm: Node) returns (child: Node?, parent: Node?)
      requires LinksOk() && elm in nodes && (elm.left == null || elm.right == null)
      modifies this`root, this`nodes, nodes`left, nodes`right, nodes`parent
      ensures child == old(if elm.left == null then elm.right else elm.left) && parent == old(elm.parent)
      ensures LinksOk() && Spliced(elm, child, parent)
    {
      hide Kept;
      assert Linked(elm);
      if elm.parent != null { assert Linked(elm.parent); }
      ghost var c := if elm.left == null then elm.right else elm.left;
      if c != null { assert Linked(c); }
      if elm.left == null && elm.right == null && elm.parent == null { SubRoot(); }
      child, parent := SpliceFields(elm);
      forall n | n in nodes ensures Linked(n) { assert old(Linked(n)); }
    }

    // The state between unlinking a node of the given colour below parent and RB_REMOVE_COLOR.
    ghost predicate Reduced(color: Color, parent: Node?, child: Node?)
      reads this, nodes
    {
      if color == Black then Removing(parent, child) else Valid()
    }

    // An only child is red and its parent black.
    lemma OnlyChild(elm: Node, c: Node)
      requires Valid() && elm in nodes && (elm.left == null || elm.right == null) && (elm.left == c || elm.right == c)
      ensures c in nodes && c.color == Red && elm.color == Black
    {
      assert Linked(elm) && BhOk(elm);
      assert Linked(c) && BhOk(c) && RedOk(c);
    }

    twostate lemma SplicedBh(g: Gap)
      requires g.gone in old(nodes) && old(Valid()) && LinksOk()
      requires g.parent == old(g.gone.parent) && Spliced(g.gone, g.child, g.parent)
      requires forall n :: n in nodes ==> n.color == old(n.color) && n.bh == old(n.bh)
      ensures forall n {:trigger BhOk(n)} :: n in nodes && n != g.parent ==> BhOk(n)
    {
      forall n | n in nodes && n != g.parent ensures BhOk(n) { assert old(Linked(n)) && old(BhOk(n)); }
    }

    twostate lemma SplicedRed(g: Gap)
      requires g.gone in old(nodes) && old(Valid()) && LinksOk()
      requires g.parent == old(g.gone.parent) && Spliced(g.gone, g.child, g.parent)
      requires forall n :: n in nodes ==> n.color == old(n.color) && n.bh == old(n.bh)
      ensures forall n {:trigger RedOk(n)} :: n in nodes && n != g.child ==> RedOk(n)
    {
      forall n | n in nodes && n != g.child ensures RedOk(n) { assert old(Linked(n)) && old(RedOk(n)); }
    }

    method Unlink(elm: Node) returns (child: Node?, parent: Node?)
      requires Valid() && elm in nodes && (elm.left == null || elm.right == null)
      modifies this`root, this`nodes, nodes`left, nodes`right, nodes`parent
      ensures Reduced(elm.color, parent, child) && nodes == old(nodes) - {elm}
      ensures elm !in {parent, child} && parent == old(elm.parent) &&
        child == old(if elm.left == null then elm.right else elm.left)
      ensures elm.left == old(elm.left) && elm.right == old(elm.right) && elm.parent == old(elm.parent)
      ensures forall n :: n in nodes && n in old(nodes) && old(n.left) != elm ==> n.left == old(n.left)
    {
      assert Linked(elm) && BhOk(elm) && RedOk(elm);
      if elm.parent != null { assert Linked(elm.parent) && BhOk(elm.parent); }
      ghost var c := if elm.left == null then elm.right else elm.left;
      if c != null { assert Linked(c) && BhOk(c) && RedOk(c); }
      if c != null { OnlyChild(elm, c); }
      hide Valid;
      child, parent := Splice(elm);
      SplicedBh(Gap(elm, elm, elm.color, parent, child));
      SplicedRed(Gap(elm, elm, elm.color, parent, child));
      assert elm.color == Red && parent != null ==> BhOk(parent);
      assert elm.color == Black && parent != null ==> Short(parent, child, L) || Short(parent, child, R);
    }

    // The links after elm has taken over the place and fields of gone.
    twostate predicate Replaced(gone: Node, elm: Node)
      reads *
    {
      && gone in old(nodes) && elm !in old(nodes) && gone != elm && nodes == old(nodes) - {gone} + {elm}
      && root == (if old(gone.parent) == null then elm else old(root)) && lo == old(lo) && hi == old(hi)
      && elm.left == old(gone.left) && elm.right == old(gone.right) && elm.parent == old(gone.parent)
      && elm.color == old(gone.color)
      && elm.lo == old(gone.lo) && elm.hi == old(gone.hi) && elm.bh == old(gone.bh)
      && (forall n :: n in nodes && n in old(nodes) && n != elm ==>
            && n.left == (if n == old(gone.parent) && old(n.left) == gone then elm else old(n.left))
            && n.right == (if n == old(gone.parent) && old(n.left) != gone then elm else old(n.right))
            && n.parent == (if n == old(gone.left) || n == old(gone.right) then elm else old(n.parent))
            && n.lo == (if gone.key <= old(n.lo) < elm.key then elm.key else old(n.lo))
            && n.hi == old(n.hi) && n.color == old(n.color) && n.bh == old(n.bh))
    }

    ghost method RaiseLo(a: int, b: int)
      modifies nodes`lo
      ensures forall n :: n in nodes ==> n.lo == if a <= old(n.lo) < b then b else old(n.lo)
    {
      forall n | n in nodes && a <= n.lo < b {
        n.lo := b;
      }
    }

    // (elm)->field = (old)->field, and the links to old redirected to elm.
    method ReplaceFields(gone: Node, elm: Node)
      requires LinksOk() && gone in nodes && gone.left != null && elm !in nodes
      modifies this`root, this`nodes, nodes`left, nodes`right, nodes`parent, nodes`lo, elm
      ensures Replaced(gone, elm)
    {
      assert Linked(gone) && Linked(gone.left) && (gone.right != null ==> Linked(gone.right));
      assert gone.parent != null ==> Linked(gone.parent);
      CopyEntry(elm, gone);
      Redirect(gone, elm);
      RaiseLo(gone.key, elm.key);
      nodes := nodes - {gone} + {elm};
    }

    method Redirect(gone: Node, elm: Node)
      requires gone in nodes && gone.left != null && gone.left in nodes && gone.left != gone
      requires gone.right != null ==> gone.right in nodes && gone.right != gone
      requires gone.parent != null ==> gone.parent in nodes && gone.parent != gone
      modifies this`root, nodes`left, nodes`right, nodes`parent
      ensures root == if old(gone.parent) == null then elm else old(root)
      ensures forall n :: n in nodes ==>
        && n.left == (if n == old(gone.parent) && old(n.left) == gone then elm else old(n.left))
        && n.right == (if n == old(gone.parent) && old(n.left) != gone then elm else old(n.right))
        && n.parent == (if n == old(gone.left) || n == old(gone.right) then elm else old(n.parent))
    {
      RedirectParent(gone, elm);
      RedirectChildren(gone, elm);
    }

    method CopyEntry(elm: Node, gone: Node)
      modifies elm
      ensures elm.left == old(gone.left) && elm.right == old(gone.right) && elm.parent == old(gone.parent) &&
        elm.color == old(gone.color)
      ensures elm.lo == old(gone.lo) && elm.hi == old(gone.hi) && elm.bh == old(gone.bh)
    {
      elm.left, elm.right, elm.parent, elm.color := gone.left, gone.right, gone.parent, gone.color;
      elm.lo, elm.hi, elm.bh := gone.lo, gone.hi, gone.bh;
    }

    method RedirectChildren(gone: Node, elm: Node)
      requires gone.left != null && gone.left in nodes && gone.left != gone &&
        (gone.right != null ==> gone.right in nodes)
      modifies nodes`parent
      ensures forall n :: n in nodes ==> n.parent == if n == gone.left || n == gone.right then elm else old(n.parent)
    {
      gone.left.parent := elm;
      if gone.right != null {
        gone.right.parent := elm;
      }
    }

    // The node given as child of the gap.
    twostate lemma ReplacedLinked(g: Gap)
      requires old(LinksOk()) && g.gone in old(nodes) && old(g.gone.left) != null && g.elm !in old(nodes)
      requires old(Linked(g.gone)) && old(Linked(g.gone.left)) && g.gone.key < g.elm.key < old(g.gone.hi)
      requires old(forall n :: n in nodes && n != g.gone ==> n.key < g.gone.key || g.elm.key < n.key)
      requires Replaced(g.gone, g.elm) && g.child != null && g.child in nodes && g.child != g.elm
      ensures Linked(g.child)
    {
      assert old(Linked(g.child));
    }

    method Replace(gone: Node, elm: Node)
      requires LinksOk() && gone in nodes && gone.left != null && elm !in nodes
      requires gone.key < elm.key < gone.hi
      requires forall n :: n in nodes && n != gone ==> n.key < gone.key || elm.key < n.key
      modifies this`root, this`nodes, nodes`left, nodes`right, nodes`parent, nodes`lo, elm
      ensures LinksOk() && Replaced(gone, elm)
    {
      assert Linked(gone) && Linked(gone.left) && (gone.right != null ==> Linked(gone.right));
      assert gone.parent != null ==> Linked(gone.parent);
      ReplaceFields(gone, elm);
      assert Linked(elm);
      forall n | n in nodes && n != elm ensures Linked(n) { ReplacedLinked(Gap(gone, elm, Black, null, n)); }
    }

    // Replacing a node keeps the colour conditions, with elm in the place of gone.
    ghost predicate Swap(g: Gap)
      reads *
    {
      && Reduced(g.color, g.parent, g.child) && g.gone in nodes && g.gone.left != null && g.elm !in nodes
      && g.child != g.gone
      && Linked(g.gone) && (g.gone.parent != null ==> Linked(g.gone.parent))
    }

    twostate lemma ReplacedShort(g: Gap)
      requires old(Swap(g)) && LinksOk() && Replaced(g.gone, g.elm) && g.color == Black && g.parent != null
      ensures var p := if g.parent == g.gone then g.elm else g.parent;
        && p in nodes && (Short(p, g.child, L) || Short(p, g.child, R))
        && (g.child != null ==> g.child in nodes && g.child.parent == p)
    {
      hide RedOk, BhOk, IsRed, Valid;
      if g.parent == g.gone {
        assert Linked(g.elm);
        assert old(Short(g.gone, g.child, L) || Short(g.gone, g.child, R));
      } else {
        assert Linked(g.parent) && old(Linked(g.parent));
        assert old(Short(g.parent, g.child, L) || Short(g.parent, g.child, R));
      }
    }

    twostate lemma ReplacedBh(g: Gap)
      requires old(Swap(g)) && LinksOk() && Replaced(g.gone, g.elm)
      ensures forall n {:trigger BhOk(n)} ::
        n in nodes && (g.color == Red || n != if g.parent == g.gone then g.elm else g.parent) ==> BhOk(n)
    {
      forall n | n in nodes && n != g.elm && (g.color == Red || n != g.parent) ensures BhOk(n) {
        assert Linked(n) && old(Linked(n)) && old(BhOk(n));
      }
      if g.color == Red || g.parent != g.gone { assert Linked(g.elm) && old(BhOk(g.gone)) && BhOk(g.elm); }
    }

    twostate lemma ReplacedRed(g: Gap)
      requires old(Swap(g)) && LinksOk() && Replaced(g.gone, g.elm)
      ensures forall n {:trigger RedOk(n)} ::
        n in nodes && !(g.color == Black && IsRed(g.child) && (n == g.child || n.parent == g.child)) ==> RedOk(n)
    {
      forall n | n in nodes && !(g.color == Black && IsRed(g.child) && (n == g.child || n.parent == g.child))
        ensures RedOk(n)
      {
        assert n != g.elm ==> old(Linked(n)) && old(RedOk(n));
        assert n == g.elm ==> old(RedOk(g.gone));
      }
    }

    method ReplaceReduced(gone: Node, elm: Node, ghost color: Color, ghost child: Node?,
        parent: Node?) returns (p: Node?)
      requires Reduced(color, parent, child) && gone in nodes && gone.left != null && elm !in nodes && child != gone
      requires gone.key < elm.key < gone.hi
      requires forall n :: n in nodes && n != gone ==> n.key < gone.key || elm.key < n.key
      modifies this`root, this`nodes, nodes`left, nodes`right, nodes`parent, nodes`lo, elm
      ensures Reduced(color, p, child) && nodes == old(nodes) - {gone} + {elm}
    {
      assert Linked(gone) && (gone.parent != null ==> Linked(gone.parent));
      p := if parent == gone then elm else parent;
      Replace(gone, elm);
      ghost var g := Gap(gone, elm, color, parent, child);
      if color == Black && parent != null { ReplacedShort(g); }
      ReplacedBh(g);
      ReplacedRed(g);
    }

    // The node RB_REMOVE puts in the place of elm: the leftmost node of its right subtree.
    method Successor(gone: Node) returns (elm: Node)
      requires LinksOk() && gone in nodes && gone.right != null
      ensures elm in nodes && elm.left == null && gone.key < elm.key < gone.hi
      ensures forall n :: n in nodes && n != gone && n != elm ==> n.key < gone.key || elm.key < n.key
    {
      assert Linked(gone);
      elm := gone.right;
      assert Linked(elm);
      SubBounds(gone);
      SubBounds(elm);
      forall n | n in nodes && gone.key < n.key < elm.key ensures n in Sub(elm.left) {
        Inside(gone, n);
      }
      while elm.left != null
        invariant elm in nodes && Linked(elm) && gone.key <= elm.lo && elm.hi <= gone.hi
        invariant forall n :: n in nodes && gone.key < n.key < elm.key ==> n in Sub(elm.left)
        decreases elm.hi - elm.lo
      {
        elm := elm.left;
        SubBounds(elm);
      }
      DistinctKeys(gone);
      DistinctKeys(elm);
    }

    // RB_REMOVE takes exactly the node gone out of the tree.
    method Remove(gone: Node) returns (r: Node)
      requires Valid() && gone in nodes
      modifies this`root, this`nodes, nodes
      ensures Valid() && r == gone
      ensures nodes == old(nodes) - {gone} && Order() == Without(old(Order()), gone)
    {
      ghost var before := Order();
      OrderSorted();
      RemoveNode(gone);
      OrderSorted();
      WithoutSorted(before, gone);
      SortedUnique(Without(before, gone), Order());
      return gone;
    }

    method RemoveNode(gone: Node)
      requires Valid() && gone in nodes
      modifies this`root, this`nodes, nodes
      ensures Valid() && nodes == old(nodes) - {gone}
    {
      if gone.left != null && gone.right != null {
        var elm := Successor(gone);
        assert Linked(gone) && Linked(gone.left) && Linked(elm);
        assert elm.right != null ==> Linked(elm.right);
        var color := elm.color;
        var child, parent := Unlink(elm);
        parent := ReplaceReduced(gone, elm, color, child, parent);
        if color == Black {
          RemoveColor(parent, child);
        }
      } else {
        var color := gone.color;
        var child, parent := Unlink(gone);
        if color == Black {
          RemoveColor(parent, child);
        }
      }
    }

    // RB_FIND
    method Find(key: int) returns (r: Node?)
      requires LinksOk()
      ensures r != null ==> r in nodes && r.key == key
      ensures r == null ==> forall n :: n in nodes ==> n.key != key
    {
      var tmp := root;
      SubRoot();
      while tmp != null
        invariant tmp != null ==> tmp in nodes
        invariant forall n :: n in nodes && n.key == key ==> n in Sub(tmp)
        decreases if tmp == null then 0 else tmp.hi - tmp.lo
      {
        assert Linked(tmp);
        SubBounds(tmp);
        if key < tmp.key {
          tmp := tmp.left;
        } else if key > tmp.key {
          tmp := tmp.right;
        } else {
          return tmp;
        }
      }
      return null;
    }

    // RB_NFIND: the node with the least key that is not below the given one.
    method NFind(key: int) returns (r: Node?)
      requires LinksOk()
      ensures r != null ==> r in nodes && key <= r.key && forall n :: n in nodes && key <= n.key ==> r.key <= n.key
      ensures r == null ==> forall n :: n in nodes ==> n.key < key
    {
      var tmp := root;
      r := null;
      SubRoot();
      while tmp != null
        invariant tmp != null ==> tmp in nodes
        invariant r != null ==> r in nodes && key < r.key
        invariant forall n :: n in nodes && key <= n.key ==> n in Sub(tmp) || (r != null && r.key <= n.key)
        invariant r != null ==> forall n :: n in Sub(tmp) ==> n.key < r.key
        decreases if tmp == null then 0 else tmp.hi - tmp.lo
      {
        assert Linked(tmp);
        SubBounds(tmp);
        if key < tmp.key {
          r := tmp;
          tmp := tmp.left;
        } else if key > tmp.key {
          tmp := tmp.right;
        } else {
          return tmp;
        }
      }
    }

    // RB_NEXT: the node after elm in key order.
    method Next(e: Node) returns (r: Node?)
      requires LinksOk() && e in nodes
      ensures r != null ==> r in nodes && e.key < r.key && forall n :: n in nodes && e.key < n.key ==> r.key <= n.key
      ensures r == null ==> forall n :: n in nodes ==> n.key <= e.key
    {
      hide Sorted;
      var elm: Node := e;
      assert Linked(e);
      if e.right != null {
        r := Successor(e);
        return;
      }
      SubBounds(e);
      assert forall n :: n in Sub(e) ==> n.key <= e.key;
      while elm.parent != null && elm == elm.parent.right
        invariant elm in nodes && elm.lo < e.key < elm.hi
        invariant forall n :: n in Sub(elm) ==> n.key <= e.key
        decreases (hi - lo) - (elm.hi - elm.lo)
      {
        assert Linked(elm);
        assert Linked(elm.parent);
        SubBounds(elm.parent);
        elm := elm.parent;
      }
      assert Linked(elm);
      r := elm.parent;
      if r == null {
        SubRoot();
      } else {
        assert Linked(r);
        SubBounds(r);
        forall n | n in nodes && e.key < n.key ensures r.key <= n.key {
          if n.key < r.key { Inside(r, n); }
        }
      }
    }

    // ----- height -----

    lemma SizeAndHeight(n: Node?)
      requires Valid() && (n != null ==> n in nodes)
      ensures Height(n) <= 2 * Bh(n) + (if IsRed(n) then 1 else 0)
      ensures Pow2(Bh(n)) <= |Sub(n)| + 1
    {
      Heights(n);
      Sizes(n);
    }

    lemma {:induction false} Heights(n: Node?)
      requires Valid() && (n != null ==> n in nodes)
      ensures Height(n) <= 2 * Bh(n) + (if IsRed(n) then 1 else 0)
      decreases if n == null then 0 else n.hi - n.lo
    {
      if n != null {
        assert Linked(n) && BhOk(n);
        Heights(n.left);
        Heights(n.right);
        assert n.left != null ==> RedOk(n.left) && Linked(n.left);
        assert n.right != null ==> RedOk(n.right) && Linked(n.right);
      }
    }

    lemma {:induction false} Sizes(n: Node?)
      requires Valid() && (n != null ==> n in nodes)
      ensures Pow2(Bh(n)) <= |Sub(n)| + 1
      decreases if n == null then 0 else n.hi - n.lo
    {
      if n != null {
        assert Linked(n) && BhOk(n);
        Sizes(n.left);
        Sizes(n.right);
        SubSize(n);
      }
    }

    lemma SubSize(n: Node)
      requires LinksOk() && n in nodes && Linked(n)
      ensures |Sub(n)| == 1 + |Sub(n.left)| + |Sub(n.right)|
    {
      SubBounds(n);
      var l, r := Sub(n.left), Sub(n.right);
      assert n !in l && n !in r && l !! r;
      assert |{n} + (l + r)| == 1 + |l + r|;
    }

    // The height of a tree with n nodes is at most 2 lg (n + 1): squaring the exponent away,
    // two to the height is at most the square of n + 1.
    lemma HeightBound()
      requires Valid()
      ensures Pow2(Height(root)) <= (|nodes| + 1) * (|nodes| + 1)
    {
      SizeAndHeight(root);
      SubRoot();
      var b := Bh(root);
      Pow2Add(b, b);
      Pow2Monotone(Height(root), 2 * b);
      var p, q := Pow2(b), |nodes| + 1;
      SquareMonotone(p, q);
    }
  }
}