// The circular doubly linked lists of queue.h.
module Ring {
  class Link {
    var next: Link
    var prev: Link

    // QUEUE_INIT
    constructor ()
      ensures next == this && prev == this
    {
      next, prev := this, this;
    }
  }

  // The link after number i of a ring.
  ghost function After(s: seq<Link>, i: nat): Link
    requires i < |s|
  {
    if i + 1 == |s| then s[0] else s[i + 1]
  }

  ghost predicate Joined(s: seq<Link>, i: nat)
    requires i < |s|
    reads (s[i] as Link)`next, (After(s, i) as Link)`prev
  {
    s[i].next == After(s, i) && After(s, i).prev == s[i]
  }

  ghost predicate Distinct(s: seq<Link>) {
    forall i, j :: 0 <= i < j < |s| ==> s[i] != s[j]
  }

  // The links s, the head first, form a ring: next and prev lead around it and are inverse.
  ghost predicate Ring(s: seq<Link>)
    reads s
  {
    && s != [] && Distinct(s)
    && forall i: nat {:trigger Joined(s, i)} :: i < |s| ==> Joined(s, i)
  }

  ghost predicate Apart(s: seq<Link>, t: seq<Link>) {
    forall i, j :: 0 <= i < |s| && 0 <= j < |t| ==> s[i] != t[j]
  }

  lemma DistinctParts(h: Link, n: Link, xs: seq<Link>, ys: seq<Link>)
    requires Distinct([h] + xs + ys) && n !in [h] + xs + ys
    ensures Distinct([h] + xs) && Distinct([n] + ys) && Apart([h] + xs, [n] + ys)
  {
    var u, s, t := [h] + xs + ys, [h] + xs, [n] + ys;
    assert forall i :: 0 <= i < |s| ==> s[i] == u[i];
    assert forall j :: 0 < j < |t| ==> t[j] == u[|xs| + j];
  }

  lemma DistinctWhole(h: Link, n: Link, xs: seq<Link>, ys: seq<Link>)
    requires Distinct([h] + xs) && Distinct([n] + ys) && Apart([h] + xs, [n] + ys)
    ensures Distinct([h] + xs + ys)
  {
    var u, s, t := [h] + xs + ys, [h] + xs, [n] + ys;
    assert forall i :: 0 <= i < |s| ==> u[i] == s[i];
    assert forall i :: |s| <= i < |u| ==> u[i] == t[i - |xs|];
  }

  // QUEUE_EMPTY
  method Empty(h: Link, ghost xs: seq<Link>) returns (b: bool)
    requires Ring([h] + xs)
    ensures b <==> xs == []
  {
    var s := [h] + xs;
    assert Joined(s, 0);
    b := h == h.next;
  }

  // QUEUE_ADD: the links of the ring n go to the end of the ring h.
  method Add(h: Link, n: Link, ghost xs: seq<Link>, ghost ys: seq<Link>)
    requires Ring([h] + xs) && Ring([n] + ys) && Apart([h] + xs, [n] + ys)
    modifies [h] + xs + ys, n
    ensures Ring([h] + xs + ys)
  {
    ghost var s, t, u := [h] + xs, [n] + ys, [h] + xs + ys;
    assert Joined(s, |s| - 1) && Joined(t, 0) && Joined(t, |t| - 1);
    DistinctWhole(h, n, xs, ys);
    assert u[0] == h && h.prev == u[|xs|] && n.next == (if ys == [] then n else u[|s|]) &&
      n.prev == (if ys == [] then n else u[|u| - 1]);
    h.prev.next := n.next;
    n.next.prev := h.prev;
    h.prev := n.prev;
    h.prev.next := h;
    forall i: nat | i < |u| ensures Joined(u, i) {
      if i < |xs| { assert old(Joined(s, i)); } else if |s| <= i < |u| - 1 { assert old(Joined(t, i - |xs|)); }
    }
  }

  // QUEUE_SPLIT: the links from q on go to the ring n.
  method Split(h: Link, q: Link, n: Link, ghost xs: seq<Link>, ghost ys: seq<Link>)
    requires Ring([h] + xs + ys) && ys != [] && ys[0] == q && n !in [h] + xs + ys
    modifies [h] + xs + ys, n
    ensures Ring([h] + xs) && Ring([n] + ys) && Apart([h] + xs, [n] + ys)
  {
    ghost var u, s, t := [h] + xs + ys, [h] + xs, [n] + ys;
    assert Joined(u, |u| - 1) && Joined(u, |xs|);
    DistinctParts(h, n, xs, ys);
    n.prev := h.prev;
    n.prev.next := n;
    n.next := q;
    h.prev := q.prev;
    h.prev.next := h;
    q.prev := n;
    forall i: nat | i < |s| ensures Joined(s, i) { assert old(Joined(u, i)); }
    forall i: nat | i < |t| ensures Joined(t, i) { if i > 0 { assert old(Joined(u, |xs| + i)); } }
  }

  // Splitting a ring and adding the parts again restores it: next and prev of every link are as before.
  method SplitThenAdd(h: Link, q: Link, n: Link, ghost xs: seq<Link>, ghost ys: seq<Link>)
    requires Ring([h] + xs + ys) && ys != [] && ys[0] == q && n !in [h] + xs + ys
    modifies [h] + xs + ys, n
    ensures Ring([h] + xs + ys)
    ensures forall l :: l in [h] + xs + ys ==> l.next == old(l.next) && l.prev == old(l.prev)
  {
    ghost var u := [h] + xs + ys;
    Split(h, q, n, xs, ys);
    Add(h, n, xs, ys);
    forall l | l in u ensures l.next == old(l.next) && l.prev == old(l.prev) {
      var i: nat :| i < |u| && u[i] == l;
      var j: nat := if i == 0 then |u| - 1 else i - 1;
      assert Joined(u, i) && old(Joined(u, i)) && Joined(u, j) && old(Joined(u, j));
    }
  }

  // QUEUE_MOVE: all links of the ring h go to the ring n.
  method Move(h: Link, n: Link, ghost xs: seq<Link>)
    requires Ring([h] + xs) && n !in [h] + xs
    modifies [h] + xs, n
    ensures Ring([h]) && Ring([n] + xs) && Apart([h], [n] + xs)
  {
    assert [h] + [] + xs == [h] + xs && Joined([h] + xs, 0);
    var empty := Empty(h, xs);
    if empty {
      n.next, n.prev := n, n;
      assert Joined([n] + xs, 0) && Joined([h], 0);
    } else {
      var q := h.next;
      Split(h, q, n, [], xs);
      assert [h] + [] == [h];
    }
  }

  // QUEUE_INSERT_HEAD
  method InsertHead(h: Link, q: Link, ghost xs: seq<Link>)
    requires Ring([h] + xs) && q !in [h] + xs
    modifies [h] + xs, q
    ensures Ring([h] + [q] + xs)
  {
    ghost var s, u := [h] + xs, [h] + [q] + xs;
    assert Joined(s, 0);
    q.next := h.next;
    q.prev := h;
    q.next.prev := q;
    h.next := q;
    assert Distinct(u) by { assert forall i :: 1 < i < |u| ==> u[i] == s[i - 1]; }
    forall i: nat | i < |u| ensures Joined(u, i) { if i > 1 { assert old(Joined(s, i - 1)); } }
  }

  // QUEUE_INSERT_TAIL
  method InsertTail(h: Link, q: Link, ghost xs: seq<Link>)
    requires Ring([h] + xs) && q !in [h] + xs
    modifies [h] + xs, q
    ensures Ring([h] + xs + [q])
  {
    ghost var s, u := [h] + xs, [h] + xs + [q];
    assert Joined(s, |s| - 1);
    q.next := h;
    q.prev := h.prev;
    q.prev.next := q;
    h.prev := q;
    assert Distinct(u) by { assert forall i :: 0 <= i < |s| ==> u[i] == s[i]; }
    forall i: nat | i < |u| ensures Joined(u, i) { if i < |xs| { assert old(Joined(s, i)); } }
  }

  // QUEUE_REMOVE
  method Remove(q: Link, ghost h: Link, ghost xs: seq<Link>, ghost ys: seq<Link>)
    requires Ring([h] + xs + [q] + ys)
    modifies [h] + xs + ys
    ensures Ring([h] + xs + ys) && q !in [h] + xs + ys
  {
    ghost var s, u := [h] + xs + [q] + ys, [h] + xs + ys;
    ghost var k := |xs| + 1;
    assert Joined(s, k) && Joined(s, k - 1);
    assert s[k] == q && (forall i :: 0 <= i < k ==> u[i] == s[i]) && (forall i :: k <= i < |u| ==> u[i] == s[i + 1]);
    assert q.prev == u[k - 1] && q.next == u[if k == |u| then 0 else k];
    q.prev.next := q.next;
    q.next.prev := q.prev;
    forall i: nat | i < |u| ensures Joined(u, i) {
      if i < k - 1 { assert old(Joined(s, i)); } else if i >= k { assert old(Joined(s, i + 1)); }
    }
  }

  // QUEUE_FOREACH visits the links of a ring in order.
  method Foreach(h: Link, ghost xs: seq<Link>) returns (visited: seq<Link>)
    requires Ring([h] + xs)
    ensures visited == xs
  {
    ghost var s := [h] + xs;
    visited := [];
    assert Joined(s, 0);
    var q := h.next;
    while q != h
      invariant |visited| <= |xs| && visited == xs[..|visited|]
      invariant q == After(s, |visited|)
      decreases |xs| - |visited|
    {
      assert Joined(s, |visited| + 1);
      visited := visited + [q];
      q := q.next;
    }
  }
}
