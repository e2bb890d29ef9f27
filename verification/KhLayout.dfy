// What the arrays of a khash table say: which keys are live and where, and that probing finds them.
// The predicates are about the contents of the arrays, so that each update is checked on values.
module KhLayout {
  import opened Bits
  import opened KhFlags
  import opened KhProbe

  // idx maps every live key to its bucket, and only one bucket holds it.
  ghost predicate Indexed<K>(f: seq<Slot>, keys: seq<K>, idx: map<K, nat>) {
    && |f| <= |keys|
    && (forall k :: k in idx ==> idx[k] < |f| && f[idx[k]] == Live && keys[idx[k]] == k)
    && (forall i :: 0 <= i < |f| && f[i] == Live ==> keys[i] in idx && idx[keys[i]] == i)
  }

  // Probe number s of a key with hash h is bucket i, and no earlier probe is empty.
  ghost predicate OnPath(f: seq<Slot>, h: nat, s: nat, i: nat)
    requires |f| > 0
  {
    Pos(h, s, |f|) == i && forall t: nat {:trigger Pos(h, t, |f|)} :: t < s ==> f[Pos(h, t, |f|)] != Empty
  }

  ghost predicate Reachable<K(!new)>(f: seq<Slot>, hash: K -> nat, idx: map<K, nat>)
    requires |f| > 0
  {
    forall k :: k in idx ==> exists s: nat :: OnPath(f, hash(k), s, idx[k])
  }

  // The number of occupied buckets, live or deleted.
  ghost function Occupied(f: seq<Slot>): (c: nat)
    ensures c <= |f|
  {
    if f == [] then 0 else Occupied(f[1..]) + (if f[0] == Empty then 0 else 1)
  }

  // The number of live buckets.
  ghost function LiveCount(f: seq<Slot>): (c: nat)
    ensures c <= Occupied(f)
  {
    if f == [] then 0 else LiveCount(f[1..]) + (if f[0] == Live then 1 else 0)
  }

  lemma {:induction false} LiveUpdate(f: seq<Slot>, i: nat, v: Slot)
    requires i < |f|
    ensures LiveCount(f[i := v]) == LiveCount(f) + (if v == Live then 1 else 0) - (if f[i] == Live then 1 else 0)
  {
    if i == 0 {
      assert f[0 := v][1..] == f[1..];
    } else {
      LiveUpdate(f[1..], i - 1, v);
      assert f[i := v][1..] == f[1..][i - 1 := v];
    }
  }

  lemma {:induction false} LiveWithoutDeleted(f: seq<Slot>)
    requires forall i :: 0 <= i < |f| ==> f[i] != Deleted
    ensures LiveCount(f) == Occupied(f)
  {
    if f != [] { LiveWithoutDeleted(f[1..]); }
  }

  lemma {:induction false} OccupiedUpdate(f: seq<Slot>, i: nat, v: Slot)
    requires i < |f|
    ensures Occupied(f[i := v]) == Occupied(f) + (if v == Empty then 0 else 1) - (if f[i] == Empty then 0 else 1)
  {
    if i == 0 {
      assert f[0 := v][1..] == f[1..];
    } else {
      OccupiedUpdate(f[1..], i - 1, v);
      assert f[i := v][1..] == f[1..][i - 1 := v];
    }
  }

  lemma {:induction false} OccupiedNone(n: nat)
    ensures Occupied(AllEmpty(n)) == 0
  {
    if n > 0 {
      OccupiedNone(n - 1);
      assert AllEmpty(n)[1..] == AllEmpty(n - 1);
    }
  }

  lemma {:induction false} SomeEmpty(f: seq<Slot>) returns (i: nat)
    requires Occupied(f) < |f|
    ensures i < |f| && f[i] == Empty
  {
    if f[0] == Empty {
      i := 0;
    } else {
      i := SomeEmpty(f[1..]);
      i := i + 1;
    }
  }

  // While not every bucket is occupied, some probe of any key is empty.
  lemma EmptyProbe(f: seq<Slot>, b: nat, h: nat) returns (s: nat)
    requires |f| == Pow2(b) && Occupied(f) < |f|
    ensures s < |f| && f[Pos(h, s, |f|)] == Empty
  {
    var i := SomeEmpty(f);
    Covers(h, i, b);
    s :| 0 <= s < Pow2(b) && Pos(h, s, Pow2(b)) == i;
  }

  // Paths survive as long as no occupied bucket becomes empty.
  lemma ReachableUpdate<K(!new)>(f: seq<Slot>, i: nat, v: Slot, hash: K -> nat, idx: map<K, nat>)
    requires |f| > 0 && i < |f| && v != Empty && Reachable(f, hash, idx)
    ensures Reachable(f[i := v], hash, idx)
  {
    var g := f[i := v];
    forall k | k in idx ensures exists s: nat :: OnPath(g, hash(k), s, idx[k]) {
      var s: nat :| OnPath(f, hash(k), s, idx[k]);
      assert OnPath(g, hash(k), s, idx[k]);
    }
  }

  lemma ReachableDrop<K(!new)>(f: seq<Slot>, i: nat, hash: K -> nat, idx: map<K, nat>, key: K)
    requires |f| > 0 && i < |f| && Reachable(f, hash, idx)
    ensures Reachable(f[i := Deleted], hash, idx - {key})
  {
    ReachableUpdate(f, i, Deleted, hash, idx);
    var g, rest := f[i := Deleted], idx - {key};
    forall k | k in rest ensures exists s: nat :: OnPath(g, hash(k), s, rest[k]) {
      var s: nat :| OnPath(g, hash(k), s, idx[k]);
      assert OnPath(g, hash(k), s, rest[k]);
    }
  }

  // A key written to a bucket on its path can be found there.
  lemma ReachableAdd<K(!new)>(f: seq<Slot>, i: nat, hash: K -> nat, idx: map<K, nat>, key: K, s: nat)
    requires |f| > 0 && i < |f| && Reachable(f, hash, idx) && OnPath(f, hash(key), s, i)
    ensures Reachable(f[i := Live], hash, idx[key := i])
  {
    ReachableUpdate(f, i, Live, hash, idx);
    assert OnPath(f[i := Live], hash(key), s, i);
  }

  lemma IndexAdd<K>(f: seq<Slot>, keys: seq<K>, idx: map<K, nat>, key: K, i: nat)
    requires Indexed(f, keys, idx) && i < |f| && f[i] != Live && key !in idx
    ensures Indexed(f[i := Live], keys[i := key], idx[key := i])
  {
  }

  // Writing to a bucket that holds no live key does not disturb the others.
  lemma IndexAside<K>(f: seq<Slot>, keys: seq<K>, idx: map<K, nat>, key: K, i: nat)
    requires Indexed(f, keys, idx) && i < |keys| && (i >= |f| || f[i] != Live)
    ensures Indexed(f, keys[i := key], idx)
  {
  }

  lemma IndexDrop<K>(f: seq<Slot>, keys: seq<K>, idx: map<K, nat>, i: nat)
    requires Indexed(f, keys, idx) && i < |f| && f[i] == Live
    ensures keys[i] in idx && idx[keys[i]] == i && Indexed(f[i := Deleted], keys, idx - {keys[i]})
  {
    var rest := idx - {keys[i]};
    forall k | k in rest ensures rest[k] != i { assert keys[rest[k]] == k; }
  }

  // The probes of a key before probe number s: occupied, and not live with the key itself.
  ghost predicate Passed<K>(f: seq<Slot>, keys: seq<K>, h: nat, key: K, s: nat)
    requires 0 < |f| <= |keys|
  {
    forall t: nat {:trigger Pos(h, t, |f|)} :: t < s ==>
      f[Pos(h, t, |f|)] != Empty && !(f[Pos(h, t, |f|)] == Live && keys[Pos(h, t, |f|)] == key)
  }

  lemma PassedStep<K>(f: seq<Slot>, keys: seq<K>, h: nat, key: K, s: nat)
    requires 0 < |f| <= |keys| && Passed(f, keys, h, key, s)
    requires var i := Pos(h, s, |f|); f[i] == Deleted || (f[i] == Live && keys[i] != key)
    ensures Passed(f, keys, h, key, s + 1)
  {
  }

  // The bucket of a key comes before any empty bucket on its path.
  lemma Unmet<K>(f: seq<Slot>, keys: seq<K>, h: nat, key: K, s: nat, j: nat)
    requires 0 < |f| <= |keys| && Passed(f, keys, h, key, s) && f[Pos(h, s, |f|)] == Empty
    requires j < |f| && f[j] == Live && keys[j] == key
    ensures forall t: nat :: !OnPath(f, h, t, j)
  {
    forall t: nat ensures !OnPath(f, h, t, j) {
      if t < s {} else if t == s {} else { assert f[Pos(h, s, |f|)] == Empty; }
    }
  }

  // A key that probing has not met before an empty bucket is not in the table; a live match is it.
  lemma ProbeEnds<K(!new)>(f: seq<Slot>, keys: seq<K>, hash: K -> nat, idx: map<K, nat>, key: K, s: nat)
    requires |f| > 0 && Indexed(f, keys, idx) && Reachable(f, hash, idx) && Passed(f, keys, hash(key), key, s)
    requires var i := Pos(hash(key), s, |f|); f[i] == Empty || (f[i] == Live && keys[i] == key)
    ensures var i := Pos(hash(key), s, |f|); if f[i] == Empty then key !in idx else key in idx && idx[key] == i
  {
    var i := Pos(hash(key), s, |f|);
    if f[i] == Empty && key in idx { Unmet(f, keys, hash(key), key, s, idx[key]); }
  }

  // i = k & mask
  method Home(k: nat, mask: nat, ghost b: nat) returns (i: nat)
    requires mask + 1 == Pow2(b)
    ensures i == Pos(k, 0, mask + 1)
  {
    AndMask(k, b);
    i := And(k, mask);
  }

  // i = (i + (++step)) & mask
  method Onward(i: nat, step: nat, mask: nat, ghost k: nat, ghost b: nat) returns (j: nat)
    requires mask + 1 == Pow2(b) && step > 0 && i == Pos(k, step - 1, mask + 1)
    ensures j == Pos(k, step, mask + 1)
  {
    AndMask(i + step, b);
    j := And(i + step, mask);
  }

  // No probe from a up to b finds a deleted bucket.
  ghost predicate NoneDeleted(f: seq<Slot>, k: nat, a: nat, b: nat)
    requires |f| > 0
  {
    forall s: nat :: a <= s < b ==> f[Pos(k, s, |f|)] != Deleted
  }

  // Probe x is the last one before the empty bucket at probe e that finds a deleted bucket or, if there
  // is none, e itself.
  ghost predicate LastFree(f: seq<Slot>, k: nat, x: nat, e: nat)
    requires |f| > 0
  {
    if x == e then f[Pos(k, e, |f|)] == Empty && NoneDeleted(f, k, 0, e)
    else x < e && f[Pos(k, x, |f|)] == Deleted && NoneDeleted(f, k, x + 1, e)
  }

  // Before probe n the last deleted bucket has been found at probe x, or site is |f| if none has been.
  ghost predicate Site(f: seq<Slot>, k: nat, site: nat, x: nat, n: nat)
    requires |f| > 0
  {
    if site == |f| then NoneDeleted(f, k, 0, n)
    else x < n && site == Pos(k, x, |f|) && f[site] == Deleted && NoneDeleted(f, k, x + 1, n)
  }

  lemma SiteStart(f: seq<Slot>, k: nat)
    requires |f| > 0
    ensures Site(f, k, |f|, 0, 0)
  {
  }

  lemma SiteStep(f: seq<Slot>, k: nat, site: nat, x: nat, n: nat)
    requires |f| > 0 && Site(f, k, site, x, n)
    ensures var i := Pos(k, n, |f|);
      if f[i] == Deleted then Site(f, k, i, n, n + 1) else Site(f, k, site, x, n + 1)
  {
  }

  lemma SiteEnd(f: seq<Slot>, k: nat, site: nat, x: nat, n: nat)
    requires |f| > 0 && Site(f, k, site, x, n)
    ensures site != |f| ==> x < n && site == Pos(k, x, |f|) && f[site] == Deleted
    ensures f[Pos(k, n, |f|)] == Empty ==> LastFree(f, k, if site == |f| then n else x, n)
  {
  }

  // Probing from hash k meets a deleted bucket before it meets an empty one.
  ghost predicate Reusable(f: seq<Slot>, k: nat) {
    |f| > 0 && exists s: nat ::
      f[Pos(k, s, |f|)] == Deleted && forall u: nat :: u < s ==> f[Pos(k, u, |f|)] != Empty
  }

  lemma ReusableSpot<K(!new)>(f: seq<Slot>, keys: seq<K>, k: nat, key: K, x: nat, e: nat)
    requires |f| > 0 && |f| <= |keys| && Passed(f, keys, k, key, e) && f[Pos(k, e, |f|)] == Empty
    requires LastFree(f, k, x, e)
    ensures f[Pos(k, x, |f|)] == Deleted <==> Reusable(f, k)
  {
    if x < e {
      assert f[Pos(k, x, |f|)] == Deleted && forall u: nat :: u < x ==> f[Pos(k, u, |f|)] != Empty;
    } else if Reusable(f, k) {
      var s: nat :| f[Pos(k, s, |f|)] == Deleted && forall u: nat :: u < s ==> f[Pos(k, u, |f|)] != Empty;
      assert false;
    }
  }
}
