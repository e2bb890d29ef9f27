// The in-place rehash of kh_resize (khash.h:268-298): one pair of arrays holds the buckets of the
// old table that have not been moved yet and the buckets of the new table filled so far.
module KhRehash {
  import opened Bits
  import opened KhFlags
  import opened KhProbe
  import opened KhLayout

  // The pairs still at a bucket of the old table, with flags f ...
  ghost predicate OldOk<K(!new), V>(f: seq<Slot>, keys: seq<K>, vals: seq<V>, old0: map<K, nat>, c: map<K, V>) {
    && |vals| == |keys| && Indexed(f, keys, old0) && old0.Keys <= c.Keys
    && forall k :: k in old0 ==> vals[old0[k]] == c[k]
  }

  // ... and those moved to a bucket of the new table, with flags g, have their values.
  ghost predicate NewOk<K(!new), V>(g: seq<Slot>, keys: seq<K>, vals: seq<V>, hash: K -> nat, new0: map<K, nat>,
      c: map<K, V>) {
    && |g| > 0 && |vals| == |keys| && Indexed(g, keys, new0) && new0.Keys <= c.Keys
    && Reachable(g, hash, new0) && Occupied(g) == |new0|
    && (forall i :: 0 <= i < |g| ==> g[i] != Deleted)
    && forall k :: k in new0 ==> vals[new0[k]] == c[k]
  }

  // All pairs of the table c are in one of the two places, but for the one that is carried.
  ghost predicate Carrying<K, V>(key: K, val: V, old0: map<K, nat>, new0: map<K, nat>, c: map<K, V>) {
    && key !in old0 && key !in new0 && key in c && c[key] == val && old0.Keys !! new0.Keys
    && c.Keys == old0.Keys + new0.Keys + {key}
  }

  // Writing the carried pair to the empty bucket i on its path in the new table.
  lemma PlaceNew<K(!new), V>(g: seq<Slot>, keys: seq<K>, vals: seq<V>, hash: K -> nat, new0: map<K, nat>, c: map<K, V>,
                             key: K, s: nat, i: nat)
    requires NewOk(g, keys, vals, hash, new0, c) && key !in new0 && key in c
    requires i < |g| && g[i] == Empty && OnPath(g, hash(key), s, i)
    ensures NewOk(g[i := Live], keys[i := key], vals[i := c[key]], hash, new0[key := i], c)
  {
    IndexAdd(g, keys, new0, key, i);
    ReachableAdd(g, i, hash, new0, key, s);
    OccupiedUpdate(g, i, Live);
    assert forall k :: k in new0 ==> new0[k] != i;
  }

  // The bucket is not live in the old table, so the old pairs are not disturbed.
  lemma OldAside<K(!new), V>(f: seq<Slot>, keys: seq<K>, vals: seq<V>, old0: map<K, nat>, c: map<K, V>, key: K, val: V,
      i: nat)
    requires OldOk(f, keys, vals, old0, c) && i < |keys| && (i >= |f| || f[i] != Live)
    ensures OldOk(f, keys[i := key], vals[i := val], old0, c)
  {
    IndexAside(f, keys, old0, key, i);
    assert forall k :: k in old0 ==> old0[k] != i;
  }

  // Taking the pair of bucket i out of the old table.
  lemma Lift<K(!new), V>(f: seq<Slot>, keys: seq<K>, vals: seq<V>, old0: map<K, nat>, new0: map<K, nat>, c: map<K, V>,
      i: nat)
    requires OldOk(f, keys, vals, old0, c) && i < |f| && f[i] == Live
    requires old0.Keys !! new0.Keys && c.Keys == old0.Keys + new0.Keys
    ensures keys[i] in old0 && OldOk(f[i := Deleted], keys, vals, old0 - {keys[i]}, c)
    ensures Carrying(keys[i], vals[i], old0 - {keys[i]}, new0, c)
  {
    IndexDrop(f, keys, old0, i);
    assert (old0 - {keys[i]}).Keys + new0.Keys + {keys[i]} == c.Keys;
  }

  // The carried pair takes bucket i of the new table and the old pair there is carried on ...
  lemma Displaced<K(!new), V>(f: seq<Slot>, s: seq<Slot>, keys: seq<K>, vals: seq<V>, hash: K -> nat,
                              old0: map<K, nat>, new0: map<K, nat>, c: map<K, V>, key: K, val: V, step: nat, i: nat)
    requires OldOk(f, keys, vals, old0, c) && NewOk(s, keys, vals, hash, new0, c) && Carrying(key, val, old0, new0, c)
    requires i < |s| && s[i] == Empty && OnPath(s, hash(key), step, i) && i < |f| && f[i] == Live
    ensures keys[i] in old0
    ensures OldOk(f[i := Deleted], keys[i := key], vals[i := val], old0 - {keys[i]}, c)
    ensures NewOk(s[i := Live], keys[i := key], vals[i := val], hash, new0[key := i], c)
    ensures Carrying(keys[i], vals[i], old0 - {keys[i]}, new0[key := i], c)
  {
    PlaceNew(s, keys, vals, hash, new0, c, key, step, i);
    Delivered(key, val, old0, new0, c, i);
    Lift(f, keys, vals, old0, new0[key := i], c, i);
    OldAside(f[i := Deleted], keys, vals, old0 - {keys[i]}, c, key, val, i);
  }

  // ... or the bucket held no old pair.
  lemma Landed<K(!new), V>(f: seq<Slot>, s: seq<Slot>, keys: seq<K>, vals: seq<V>, hash: K -> nat,
                           old0: map<K, nat>, new0: map<K, nat>, c: map<K, V>, key: K, val: V, step: nat, i: nat)
    requires OldOk(f, keys, vals, old0, c) && NewOk(s, keys, vals, hash, new0, c) && Carrying(key, val, old0, new0, c)
    requires i < |s| && s[i] == Empty && OnPath(s, hash(key), step, i) && (i >= |f| || f[i] != Live)
    ensures OldOk(f, keys[i := key], vals[i := val], old0, c)
    ensures NewOk(s[i := Live], keys[i := key], vals[i := val], hash, new0[key := i], c)
    ensures old0.Keys !! new0[key := i].Keys && c.Keys == old0.Keys + new0[key := i].Keys
  {
    PlaceNew(s, keys, vals, hash, new0, c, key, step, i);
    OldAside(f, keys, vals, old0, c, key, val, i);
    Delivered(key, val, old0, new0, c, i);
  }

  lemma Delivered<K, V>(key: K, val: V, old0: map<K, nat>, new0: map<K, nat>, c: map<K, V>, i: nat)
    requires Carrying(key, val, old0, new0, c)
    ensures old0.Keys !! new0[key := i].Keys && c.Keys == old0.Keys + new0[key := i].Keys
  {
    assert new0[key := i].Keys == new0.Keys + {key};
  }

  // Both depend only on the buckets in range.
  lemma OldPrefix<K(!new), V>(f: seq<Slot>, keys: seq<K>, vals: seq<V>, keys2: seq<K>, vals2: seq<V>, old0: map<K, nat>,
      c: map<K, V>)
    requires OldOk(f, keys, vals, old0, c) && |f| <= |keys2| == |vals2|
    requires forall i :: 0 <= i < |f| ==> keys2[i] == keys[i] && vals2[i] == vals[i]
    ensures OldOk(f, keys2, vals2, old0, c)
  {
  }

  lemma NewPrefix<K(!new), V>(g: seq<Slot>, keys: seq<K>, vals: seq<V>, keys2: seq<K>, vals2: seq<V>, hash: K -> nat,
      new0: map<K, nat>, c: map<K, V>)
    requires NewOk(g, keys, vals, hash, new0, c) && |g| <= |keys2| == |vals2|
    requires forall i :: 0 <= i < |g| ==> keys2[i] == keys[i] && vals2[i] == vals[i]
    ensures NewOk(g, keys2, vals2, hash, new0, c)
  {
  }

  lemma NewNone<K(!new), V>(m: nat, keys: seq<K>, vals: seq<V>, hash: K -> nat, c: map<K, V>)
    requires 0 < m <= |keys| == |vals|
    ensures NewOk(AllEmpty(m), keys, vals, hash, map[], c)
  {
    OccupiedNone(m);
  }

  lemma CarryCount<K, V>(key: K, val: V, old0: map<K, nat>, new0: map<K, nat>, c: map<K, V>)
    requires Carrying(key, val, old0, new0, c)
    ensures |c| == |old0| + |new0| + 1
  {
    assert |c.Keys| == |old0.Keys + new0.Keys| + 1;
  }

  // The first j buckets are not live.
  ghost predicate Vacated(f: seq<Slot>, j: nat) {
    j <= |f| && forall i :: 0 <= i < j ==> f[i] != Live
  }

  lemma StillVacated(f0: seq<Slot>, f: seq<Slot>, j: nat)
    requires Vacated(f0, j) && (f0 == f || Settled(f0, f)) && j < |f| && f[j] != Live
    ensures Vacated(f, j + 1)
  {
  }

  // When no bucket of the old table is live any more, the new one holds the whole table.
  lemma AllMoved<K(!new), V>(f: seq<Slot>, keys: seq<K>, vals: seq<V>, old0: map<K, nat>, new0: map<K, nat>,
      c: map<K, V>)
    requires OldOk(f, keys, vals, old0, c) && c.Keys == old0.Keys + new0.Keys
    requires Vacated(f, |f|)
    ensures new0.Keys == c.Keys && |new0| == |c|
  {
    assert old0.Keys == {};
    assert |new0| == |new0.Keys| && |c| == |c.Keys|;
  }

  // realloc: the common prefix is kept.
  method Realloc<T(0)>(a: array<T>, m: nat) returns (r: array<T>)
    ensures fresh(r) && r.Length == m
    ensures forall i :: 0 <= i < m && i < a.Length ==> r[i] == a[i]
  {
    r := new T[m];
    var n := if m < a.Length then m else a.Length;
    for i := 0 to n
      invariant forall j :: 0 <= j < i ==> r[j] == a[j]
    {
      r[i] := a[i];
    }
  }

  // while (!__ac_isempty(new_flags, i)) i = (i + (++step)) & new_mask
  method SeekEmpty(g: array<bv32>, ghost s: seq<Slot>, k: nat, mask: nat, ghost b: nat)
    returns (i: nat, ghost step: nat)
    requires |s| == mask + 1 == Pow2(b) && Packs(g[..], s) && Occupied(s) < |s|
    ensures i < |s| && s[i] == Empty && OnPath(s, k, step, i)
  {
    hide IsEmpty;
    var st := 0;
    i := Home(k, mask, b);
    ghost var goal := EmptyProbe(s, b, k);
    Tests(g[..], s, i);
    while !IsEmpty(g[..], i)
      invariant i == Pos(k, st, |s|) && st <= goal
      invariant IsEmpty(g[..], i) <==> s[i] == Empty
      invariant forall t: nat {:trigger Pos(k, t, |s|)} :: t < st ==> s[Pos(k, t, |s|)] != Empty
      decreases goal - st
    {
      st := st + 1;
      i := Onward(i, st, mask, k, b);
      Tests(g[..], s, i);
    }
    step := st;
  }

  // No array of the table is another.
  ghost predicate Apart<K, V>(flags: array<bv32>, g: array<bv32>, keys: array<K>, vals: array<V>) {
    && flags != g && flags as object != keys && flags as object != vals
    && g as object != keys && g as object != vals && keys as object != vals
  }

  // Exchanging the carried pair with the one of bucket i.
  method Exchange<K, V>(keys: array<K>, vals: array<V>, i: nat, key: K, val: V) returns (key2: K, val2: V)
    requires i < keys.Length && i < vals.Length && keys as object != vals
    modifies keys, vals
    ensures keys[..] == old(keys[..])[i := key] && vals[..] == old(vals[..])[i := val]
    ensures key2 == old(keys[i]) && val2 == old(vals[i])
  {
    key2, keys[i] := keys[i], key;
    val2, vals[i] := vals[i], val;
  }

  // The kick-out loop (khash.h:277-292): carries key and val, and every pair they displace, to the
  // new table; each turn takes a pair out of the old table or ends.
  method KickOut<K(!new), V>(hash: K -> nat, flags: array<bv32>, g: array<bv32>, keys: array<K>, vals: array<V>, n: nat,
      mask: nat, ghost b: nat, key0: K, val0: V, ghost f0: seq<Slot>, ghost s0: seq<Slot>,
      ghost old1: map<K, nat>, ghost new1: map<K, nat>, ghost c: map<K, V>)
    returns (ghost f: seq<Slot>, ghost s: seq<Slot>, ghost old0: map<K, nat>, ghost new0: map<K, nat>)
    requires Apart(flags, g, keys, vals) && |f0| == n && |s0| == mask + 1 == Pow2(b) && |c| < |s0|
    requires Packs(flags[..], f0) && Packs(g[..], s0) && Clean(g[..])
    requires OldOk(f0, keys[..], vals[..], old1, c) && NewOk(s0, keys[..], vals[..], hash, new1, c)
    requires Carrying(key0, val0, old1, new1, c)
    modifies flags, g, keys, vals
    ensures |f| == n && |s| == |s0| && Packs(flags[..], f) && Packs(g[..], s) && Clean(g[..])
    ensures OldOk(f, keys[..], vals[..], old0, c) && NewOk(s, keys[..], vals[..], hash, new0, c)
    ensures old0.Keys !! new0.Keys && c.Keys == old0.Keys + new0.Keys
    ensures Settled(f0, f)
  {
    var key, val := key0, val0;
    f, s, old0, new0 := f0, s0, old1, new1;
    while true
      invariant |f| == n && |s| == |s0| && Packs(flags[..], f) && Packs(g[..], s) && Clean(g[..])
      invariant OldOk(f, keys[..], vals[..], old0, c) && NewOk(s, keys[..], vals[..], hash, new0, c)
      invariant Carrying(key, val, old0, new0, c)
      invariant Settled(f0, f)
      decreases |old0|
    {
      ghost var ks, vs := keys[..], vals[..];
      CarryCount(key, val, old0, new0, c);
      var i, step := SeekEmpty(g, s, hash(key), mask, b);
      MarkFilled(g, i, s);
      if i < n { LiveTest(flags[..], f, i); }
      if i < n && !IsEither(flags[..], i) {
        Displaced(f, s, ks, vs, hash, old0, new0, c, key, val, step, i);
        MarkDeleted(flags, i, f);
        f := f[i := Deleted];
        old0 := old0 - {ks[i]};
        s, new0 := s[i := Live], new0[key := i];
        key, val := Exchange(keys, vals, i, key, val);
      } else {
        Landed(f, s, ks, vs, hash, old0, new0, c, key, val, step, i);
        var _, _ := Exchange(keys, vals, i, key, val);
        s, new0 := s[i := Live], new0[key := i];
        break;
      }
    }
  }

  // No bucket comes to life.
  ghost predicate Settled(f0: seq<Slot>, f: seq<Slot>) {
    |f| == |f0| && forall i :: 0 <= i < |f| && f0[i] != Live ==> f[i] != Live
  }

  // Moves the pair of the live bucket j.
  method MovePair<K(!new), V>(hash: K -> nat, flags: array<bv32>, g: array<bv32>, keys: array<K>, vals: array<V>,
      n: nat, mask: nat, ghost b: nat, j: nat, ghost f0: seq<Slot>, ghost s0: seq<Slot>,
      ghost old1: map<K, nat>, ghost new1: map<K, nat>, ghost c: map<K, V>)
    returns (ghost f: seq<Slot>, ghost s: seq<Slot>, ghost old0: map<K, nat>, ghost new0: map<K, nat>)
    requires Apart(flags, g, keys, vals) && |f0| == n && |s0| == mask + 1 == Pow2(b) && |c| < |s0|
    requires Packs(flags[..], f0) && Packs(g[..], s0) && Clean(g[..])
    requires OldOk(f0, keys[..], vals[..], old1, c) && NewOk(s0, keys[..], vals[..], hash, new1, c)
    requires old1.Keys !! new1.Keys && c.Keys == old1.Keys + new1.Keys
    requires j < n && f0[j] == Live
    modifies flags, g, keys, vals
    ensures |f| == n && |s| == |s0| && Packs(flags[..], f) && Packs(g[..], s) && Clean(g[..])
    ensures OldOk(f, keys[..], vals[..], old0, c) && NewOk(s, keys[..], vals[..], hash, new0, c)
    ensures old0.Keys !! new0.Keys && c.Keys == old0.Keys + new0.Keys
    ensures Settled(f0, f) && f[j] != Live
  {
    var key, val := keys[j], vals[j];
    Lift(f0, keys[..], vals[..], old1, new1, c, j);
    MarkDeleted(flags, j, f0);
    f, s, old0, new0 := KickOut(hash, flags, g, keys, vals, n, mask, b, key, val, f0[j := Deleted], s0, old1 - {key},
                                new1, c);
    assert f0[j := Deleted][j] != Live;
  }

  // The loop over the old buckets (khash.h:269-293): it moves every pair to the new table.
  method MoveAll<K(!new), V>(hash: K -> nat, flags: array<bv32>, g: array<bv32>, keys: array<K>, vals: array<V>, n: nat,
      m: nat, ghost b: nat, ghost f0: seq<Slot>, ghost idx: map<K, nat>, ghost c: map<K, V>)
    returns (ghost s: seq<Slot>, ghost jdx: map<K, nat>)
    requires Apart(flags, g, keys, vals) && |f0| == n && m == Pow2(b) && |c| < m && m <= keys.Length
    requires Packs(flags[..], f0) && Packs(g[..], AllEmpty(m)) && Clean(g[..])
    requires OldOk(f0, keys[..], vals[..], idx, c) && idx.Keys == c.Keys
    modifies flags, g, keys, vals
    ensures |s| == m && Packs(g[..], s) && NewOk(s, keys[..], vals[..], hash, jdx, c)
    ensures jdx.Keys == c.Keys && |jdx| == |c|
  {
    ghost var f, old0 := f0, idx;
    s, jdx := AllEmpty(m), map[];
    NewNone(m, keys[..], vals[..], hash, c);
    for j := 0 to n
      invariant |f| == n && |s| == m && Packs(flags[..], f) && Packs(g[..], s) && Clean(g[..])
      invariant OldOk(f, keys[..], vals[..], old0, c) && NewOk(s, keys[..], vals[..], hash, jdx, c)
      invariant old0.Keys !! jdx.Keys && c.Keys == old0.Keys + jdx.Keys
      invariant Vacated(f, j)
    {
      LiveTest(flags[..], f, j);
      ghost var f1 := f;
      if !IsEither(flags[..], j) {
        f, s, old0, jdx := MovePair(hash, flags, g, keys, vals, n, m - 1, b, j, f, s, old0, jdx, c);
      }
      StillVacated(f1, f, j);
    }
    AllMoved(f, keys[..], vals[..], old0, jdx, c);
  }
}
