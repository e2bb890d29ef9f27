// The open-addressing hash table of khash.h.
//
// The keys and values are in parallel arrays; flags packs two bits per bucket.  A null pointer of
// the original is an array of length 0 here.  The ghost field slot unpacks the flags, the ghost map
// idx gives the bucket of every live key; Contents, the finite map that the table stands for,
// follows from it.
module KHash {
  import opened Bits
  import opened KhFlags
  import opened KhProbe
  import opened KhLayout
  import opened KhRehash

  // (khint_t)(n * __ac_HASH_UPPER + 0.5) for a power of two n
  function Upper(n: nat): nat { (77 * n + 50) / 100 }

  // The load bound is the whole number nearest to 77 in 100.
  lemma LoadBound(n: nat)
    ensures -50 < 100 * Upper(n) - 77 * n <= 50
    ensures n >= 4 ==> 0 < Upper(n) < n
  {
  }

  ghost function Image<K, V>(idx: map<K, nat>, vals: seq<V>): map<K, V> {
    map k | k in idx && idx[k] < |vals| :: vals[idx[k]]
  }

  lemma ImageAdd<K, V>(f: seq<Slot>, keys: seq<K>, idx: map<K, nat>, vals: seq<V>, key: K, x: nat)
    requires Indexed(f, keys, idx) && x < |f| == |vals| && key !in idx
    ensures Image(idx[key := x], vals) == Image(idx, vals)[key := vals[x]]
  {
  }

  lemma ImageDrop<K, V>(idx: map<K, nat>, vals: seq<V>, key: K)
    ensures Image(idx - {key}, vals) == Image(idx, vals) - {key}
  {
  }

  class Table<K(==, !new, 0), V(0)> {
    const hash: K -> nat
    var n_buckets: nat
    var size: nat
    var n_occupied: nat
    var upper_bound: nat
    var flags: array<bv32>
    var keys: array<K>
    var vals: array<V>
    ghost var b: nat
    ghost var slot: seq<Slot>
    ghost var idx: map<K, nat>

    ghost predicate Shape()
      reads this
    {
      && n_buckets < TWO_32 && keys.Length == n_buckets && vals.Length == n_buckets && |slot| == n_buckets
      && (n_buckets != 0 ==> n_buckets == Pow2(b) && 2 <= b && flags.Length == Words(n_buckets))
      && upper_bound == Upper(n_buckets)
      && flags as object != keys && flags as object != vals && keys as object != vals
    }

    ghost predicate Valid()
      reads this, flags, keys
    {
      && Shape()
      && Packs(flags[..], slot)
      && Indexed(slot, keys[..], idx)
      && (n_buckets != 0 ==> Reachable(slot, hash, idx))
      && size == |idx| == LiveCount(slot)
      && n_occupied == Occupied(slot)
      && n_occupied <= upper_bound
    }

    // The map that the table stands for.
    ghost function Contents(): map<K, V>
      requires Valid()
      reads this, flags, keys, vals
    {
      Image(idx, vals[..])
    }

    lemma BigEnough()
      requires Shape() && n_buckets != 0
      ensures n_buckets >= 4 && upper_bound < n_buckets && n_buckets <= 16 * flags.Length
    {
      Multiple(b);
    }

    constructor (hash: K -> nat)
      ensures Valid() && Contents() == map[] && this.hash == hash
      ensures fresh(flags) && fresh(keys) && fresh(vals)
    {
      this.hash := hash;
      n_buckets, size, n_occupied, upper_bound, b, slot, idx := 0, 0, 0, 0, 0, [], map[];
      flags, keys, vals := new bv32[0], new K[0], new V[0];
    }

    // What the probe loops need of the table.
    ghost predicate Searchable()
      reads this`n_buckets, this`b, this`slot, this`flags, this`keys, flags
    {
      && n_buckets == Pow2(b) && keys.Length == n_buckets && |slot| == n_buckets
      && Packs(flags[..], slot) && Occupied(slot) < n_buckets
    }

    // The loop of kh_get: probing ends at an empty bucket or at the key, before it comes round.
    method Seek(key: K) returns (i: nat, ghost step: nat)
      requires Searchable()
      ensures i == Pos(hash(key), step, n_buckets) && Passed(slot, keys[..], hash(key), key, step)
      ensures slot[i] == Empty || (slot[i] == Live && keys[i] == key)
    {
      hide IsEmpty, IsDel, IsEither;
      var mask := n_buckets - 1;
      var k := hash(key);
      var st := 0;
      i := Home(k, mask, b);
      var last := i;
      ghost var goal := EmptyProbe(slot, b, k);
      Tests(flags[..], slot, i);
      while !IsEmpty(flags[..], i) && (IsDel(flags[..], i) || keys[i] != key)
        invariant i == Pos(k, st, n_buckets) && st <= goal < n_buckets
        invariant Agrees(flags[..], slot, i)
        invariant Passed(slot, keys[..], k, key, st)
        decreases goal - st
      {
        PassedStep(slot, keys[..], k, key, st);
        st := st + 1;
        i := Onward(i, st, mask, k, b);
        if i == last { PosInjective(k, 0, st, b); assert false; break; }
        Tests(flags[..], slot, i);
      }
      step := st;
    }

    // kh_get: the bucket of the key, or n_buckets.
    method Get(key: K) returns (x: nat)
      requires Valid()
      ensures key in Contents() <==> x != n_buckets
      ensures key in Contents() ==> x < n_buckets && keys[x] == key && slot[x] == Live && vals[x] == Contents()[key]
    {
      if n_buckets != 0 {
        BigEnough();
        var i, step := Seek(key);
        ProbeEnds(slot, keys[..], hash, idx, key, step);
        LiveTest(flags[..], slot, i);
        return if IsEither(flags[..], i) then n_buckets else i;
      } else {
        return 0;
      }
    }

    // kh_del: forgets the key of bucket x, if there is one.
    method Del(x: nat)
      requires Valid() && x <= n_buckets
      modifies this`size, this`idx, this`slot, flags
      ensures Valid()
      ensures Contents() ==
        if x < n_buckets && old(slot[x]) == Live then old(Contents()) - {keys[x]} else old(Contents())
      ensures n_occupied == old(n_occupied)
    {
      hide Indexed, Reachable, Occupied, LiveCount, Image, IsEither, Upper, Pow2;
      if x != n_buckets { LiveTest(flags[..], slot, x); }
      if x != n_buckets && !IsEither(flags[..], x) {
        Abandon(x);
        size := size - 1;
      }
    }

    method Abandon(x: nat)
      requires Valid() && x < n_buckets && slot[x] == Live
      modifies this`idx, this`slot, flags
      ensures keys[x] in old(idx) && idx == old(idx) - {keys[x]} && slot == old(slot)[x := Deleted]
      ensures Shape() && Packs(flags[..], slot) && Indexed(slot, keys[..], idx) && Reachable(slot, hash, idx)
      ensures |idx| == |old(idx)| - 1
      ensures Image(idx, vals[..]) == Image(old(idx), vals[..]) - {keys[x]}
      ensures LiveCount(slot) == LiveCount(old(slot)) - 1 && Occupied(slot) == Occupied(old(slot))
    {
      hide Indexed, Reachable, Occupied, LiveCount, Image;
      MarkDeleted(flags, x, slot);
      IndexDrop(slot, keys[..], idx, x);
      ImageDrop(idx, vals[..], keys[x]);
      ReachableDrop(slot, x, hash, idx, keys[x]);
      OccupiedUpdate(slot, x, Deleted);
      LiveUpdate(slot, x, Deleted);
      slot := slot[x := Deleted];
      idx := idx - {keys[x]};
    }

    // kh_clear
    method Clear()
      requires Valid()
      modifies this`size, this`n_occupied, this`idx, this`slot, flags
      ensures Valid() && Contents() == map[] && n_buckets == old(n_buckets) && n_occupied == 0
    {
      if n_buckets != 0 {
        BigEnough();
        MarkAllEmpty(flags, n_buckets);
        OccupiedNone(n_buckets);
        size, n_occupied := 0, 0;
        slot, idx := AllEmpty(n_buckets), map[];
      }
    }

    // kh_resize: rehashes into the requested number of buckets, rounded up to a power of two, or does
    // nothing if the keys do not fit.  The pairs are the same either way.
    method Resize(request: nat)
      requires Valid() && request < TWO_32
      modifies this, flags, keys, vals
      ensures Valid() && Contents() == old(Contents()) && size == old(size) && n_occupied <= old(n_occupied)
      ensures if size >= Upper(Target(request))
        then unchanged(this) && unchanged(flags) && unchanged(keys) && unchanged(vals)
        else n_buckets == Target(request) && n_occupied == size
      ensures fresh({flags as object, keys, vals} - old({flags as object, keys, vals}))
    {
      var m, e := BucketsFor(request);
      if size < Upper(m) {
        Rehash(m, e);
      }
    }

    method BucketsFor(request: nat) returns (m: nat, ghost e: nat)
      requires request < TWO_32
      ensures m == Target(request) == Pow2(e) && 2 <= e && m < TWO_32
    {
      m := RoundUp32(request);
      if m < 4 { m := 4; }
      e := TargetPow2(request);
    }

    lemma Before()
      requires Valid()
      ensures OldOk(slot, keys[..], vals[..], idx, Contents())
      ensures idx.Keys == Contents().Keys && |idx| == |Contents()| == size
    {
      assert Contents().Keys == idx.Keys;
      assert |Contents()| == |Contents().Keys| && |idx| == |idx.Keys|;
    }

    method Rehash(m: nat, ghost e: nat)
      requires Valid() && m == Pow2(e) && 2 <= e && m < TWO_32 && size < Upper(m)
      modifies this, flags, keys, vals
      ensures Valid() && Contents() == old(Contents()) && size == old(size) && n_buckets == m && n_occupied == size
      ensures fresh({flags as object, keys, vals} - old({flags as object, keys, vals}))
    {
      ghost var c := Contents();
      Before();
      var new_flags := new bv32[Words(m)];
      Multiple(e);
      MarkAllEmpty(new_flags, m);
      var n := n_buckets;
      Grow(m, c);
      ghost var s, jdx := MoveAll(hash, flags, new_flags, keys, vals, n, m, e, slot, idx, c);
      Shrink(m, s, jdx, c);
      Adopt(new_flags, m, e, s, jdx, c);
    }

    // expand: realloc of both arrays if they are too short
    method Grow(m: nat, ghost c: map<K, V>)
      requires OldOk(slot, keys[..], vals[..], idx, c) && keys.Length == vals.Length == |slot| && keys as object != vals
      modifies this`keys, this`vals
      ensures OldOk(slot, keys[..], vals[..], idx, c) && keys.Length == vals.Length >= m && keys as object != vals
      ensures (keys == old(keys) && vals == old(vals)) || (fresh(keys) && fresh(vals))
    {
      ghost var ks, vs := keys[..], vals[..];
      if keys.Length < m {
        keys := Realloc(keys, m);
        vals := Realloc(vals, m);
        OldPrefix(slot, ks, vs, keys[..], vals[..], idx, c);
      }
    }

    // shrink: realloc of both arrays if they are too long
    method Shrink(m: nat, ghost s: seq<Slot>, ghost jdx: map<K, nat>, ghost c: map<K, V>)
      requires |s| == m && keys.Length == vals.Length >= m && keys as object != vals
      requires NewOk(s, keys[..], vals[..], hash, jdx, c)
      modifies this`keys, this`vals
      ensures keys.Length == vals.Length == m && keys as object != vals && NewOk(s, keys[..], vals[..], hash, jdx, c)
      ensures (keys == old(keys) && vals == old(vals)) || (fresh(keys) && fresh(vals))
    {
      ghost var ks, vs := keys[..], vals[..];
      if keys.Length > m {
        keys := Realloc(keys, m);
        vals := Realloc(vals, m);
        NewPrefix(s, ks, vs, keys[..], vals[..], hash, jdx, c);
      }
    }

    // The new table takes over (khash.h:299-303).
    method Adopt(new_flags: array<bv32>, m: nat, ghost e: nat, ghost s: seq<Slot>, ghost jdx: map<K, nat>,
        ghost c: map<K, V>)
      requires |s| == m == Pow2(e) && 2 <= e && m < TWO_32 && keys.Length == vals.Length == m &&
        new_flags.Length == Words(m)
      requires keys as object != vals && new_flags as object != keys && new_flags as object != vals
      requires Packs(new_flags[..], s) && NewOk(s, keys[..], vals[..], hash, jdx, c)
      requires jdx.Keys == c.Keys && |jdx| == size < Upper(m)
      modifies this`flags, this`n_buckets, this`n_occupied, this`upper_bound, this`b, this`slot, this`idx
      ensures Valid() && Contents() == c && n_buckets == m && n_occupied == size && flags == new_flags
    {
      LiveWithoutDeleted(s);
      flags := new_flags;
      n_buckets := m;
      n_occupied := size;
      upper_bound := Upper(n_buckets);
      b, slot, idx := e, s, jdx;
      assert Contents() == c;
    }

    // The number of buckets kh_resize aims at.
    ghost function Target(request: nat): nat {
      if RoundUp32(request) < 4 then 4 else RoundUp32(request)
    }

    lemma TargetPow2(request: nat) returns (e: nat)
      requires request < TWO_32
      ensures 2 <= e && Target(request) == Pow2(e) < TWO_32
    {
      e := RoundUpPow2(request);
      if RoundUp32(request) < 4 {
        e := 2;
      } else {
        assert Pow2(0) == 1 && Pow2(1) == 2;
        Pow2Less(e, 32);
        Pow2At32();
      }
      assert Pow2(2) == 4;
    }

    // Makes room for one more occupied bucket (kh_put, khash.h:310-318): drops the deleted buckets or
    // doubles the table, which 2^31 buckets are too many for.
    method MakeRoom()
      requires Valid()
      modifies this, flags, keys, vals
      ensures Valid() && Contents() == old(Contents()) && size == old(size)
      ensures n_occupied <= old(n_occupied)
      ensures n_occupied < upper_bound <==>
        old(n_occupied < upper_bound || n_buckets < 0x8000_0000 || n_buckets > 2 * size)
      ensures old(n_occupied) >= old(upper_bound) && n_occupied < upper_bound ==>
        && n_occupied == size
        && n_buckets == if old(n_buckets) > 2 * size then old(n_buckets)
                        else if old(n_buckets) == 0 then 4 else 2 * old(n_buckets)
      ensures n_occupied >= upper_bound ==>
        unchanged(this) && unchanged(flags) && unchanged(keys) && unchanged(vals)
      ensures old(n_occupied) < old(upper_bound) ==>
        unchanged(this) && unchanged(flags) && unchanged(keys) && unchanged(vals)
      ensures fresh({flags as object, keys, vals} - old({flags as object, keys, vals}))
    {
      hide Indexed, Reachable, Occupied, LiveCount;
      if n_occupied >= upper_bound {
        RoomTargets();
        if n_buckets > 2 * size {
          Resize(n_buckets - 1);
        } else {
          if n_buckets >= 0x8000_0000 { Wraps(); }
          Resize(n_buckets + 1);
        }
      }
    }

    // Both sizes that kh_put asks for hold the keys; doubling 2^31 buckets is out of reach of 32 bits.
    lemma RoomTargets()
      requires Valid()
      ensures n_buckets > 2 * size ==> Target(n_buckets - 1) == n_buckets && size < Upper(n_buckets)
      ensures n_buckets < 0x8000_0000 ==>
        size < Upper(Target(n_buckets + 1)) && Target(n_buckets + 1) == if n_buckets == 0 then 4 else 2 * n_buckets
    {
      hide RoundUp32, Occupied, Reachable, LiveCount, Packs, Indexed;
      var n := n_buckets;
      if n == 0 {
        RoundUpLeast(1, 0);
      } else {
        BigEnough();
        Pow2At32();
        if b > 31 { Pow2Monotone(32, b); }
        assert Pow2(b - 1) < n - 1;
        RoundUpLeast(n - 1, b);
        SmallRemainder(n);
        if n < 0x8000_0000 {
          if b > 30 { Pow2Monotone(31, b); }
          RoundUpLeast(n + 1, b + 1);
          SmallRemainder(2 * n);
        }
      }
    }

    // With 2^31 buckets of which at least half are live the size asked for wraps around to 0, so that
    // kh_resize does nothing.
    lemma Wraps()
      requires Valid() && n_buckets >= 0x8000_0000 && n_buckets <= 2 * size
      ensures n_buckets == 0x8000_0000 && Target(n_buckets + 1) == 4 && size >= Upper(4)
    {
      hide RoundUp32, Occupied, Reachable, LiveCount, Packs, Indexed;
      Pow2At32();
      assert Pow2(32) == 2 * Pow2(31);
      if b > 31 { Pow2Monotone(32, b); } else if b < 31 { Pow2Monotone(b + 1, 31); }
      RoundUpLeast(n_buckets + 1, 32);
    }

    // Both targets are the least power of two that is not below the request and has four buckets.
    lemma TargetLeast(request: nat)
      requires request <= 0x8000_0000
      ensures request <= Target(request) && 4 <= Target(request)
      ensures Target(request) == 4 || Target(request) < 2 * request
    {
      if request == 0 {
        RoundUpZero();
      } else {
        Pow2At32();
        var e := LeastExponent(request, 32);
        assert e > 0 ==> Pow2(e) == 2 * Pow2(e - 1);
        assert Pow2(32) == 2 * Pow2(31);
        if e > 31 { Pow2Monotone(31, e - 1); }
        RoundUpLeast(request, e);
        if e < 32 { Pow2Less(e, 32); SmallRemainder(Pow2(e)); }
      }
    }

    // The probe loop of kh_put: the bucket of the key or, if it has none, the last deleted bucket on
    // the way or the empty one at the end of it.
    method Spot(key: K) returns (x: nat, ghost sx: nat, ghost st: nat)
      requires Searchable()
      ensures x < n_buckets && OnPath(slot, hash(key), sx, x)
      ensures if slot[x] == Live then keys[x] == key
              else Passed(slot, keys[..], hash(key), key, st) && slot[Pos(hash(key), st, n_buckets)] == Empty
      ensures slot[x] != Live ==> x == Pos(hash(key), sx, n_buckets) && LastFree(slot, hash(key), sx, st)
    {
      hide Upper, Pow2, Occupied, LiveCount, Site, LastFree;
      hide IsEmpty, IsDel, IsEither;
      var mask := n_buckets - 1;
      var k := hash(key);
      var step := 0;
      var site := n_buckets;
      ghost var ss := 0;
      x := n_buckets;
      var i := Home(k, mask, b);
      Tests(flags[..], slot, i);
      SiteStart(slot, k);
      if IsEmpty(flags[..], i) {
        x := i;
      } else {
        var last := i;
        ghost var goal := EmptyProbe(slot, b, k);
        while !IsEmpty(flags[..], i) && (IsDel(flags[..], i) || keys[i] != key)
          invariant i == Pos(k, step, n_buckets) && step <= goal < n_buckets && x == n_buckets
          invariant Agrees(flags[..], slot, i)
          invariant Passed(slot, keys[..], k, key, step)
          invariant Site(slot, k, site, ss, step)
          decreases goal - step
        {
          SiteStep(slot, k, site, ss, step);
          if IsDel(flags[..], i) { site := i; ss := step; }
          PassedStep(slot, keys[..], k, key, step);
          step := step + 1;
          i := Onward(i, step, mask, k, b);
          if i == last { PosInjective(k, 0, step, b); assert false; break; }
          Tests(flags[..], slot, i);
        }
        if x == n_buckets {
          if IsEmpty(flags[..], i) && site != n_buckets { x := site; } else { x := i; }
        }
      }
      SiteEnd(slot, k, site, ss, step);
      sx := if x == i then step else ss;
      st := step;
    }

    // kh_put: finds the bucket of the key, giving it one if it has none (ret 1: an empty one, ret 2: a
    // deleted one).  The value of a new key is whatever the bucket held before.
    method Put(key: K) returns (x: nat, ret: int)
      requires Valid()
      requires n_occupied < upper_bound || n_buckets < 0x8000_0000 || n_buckets > 2 * size || key in Contents()
      modifies this, flags, keys, vals
      ensures Valid() && x < n_buckets && keys[x] == key && slot[x] == Live && key in Contents() &&
        vals[x] == Contents()[key]
      ensures key in old(Contents()) ==> ret == 0 && Contents() == old(Contents())
      ensures key !in old(Contents()) ==> ret in {1, 2} && Contents() == old(Contents())[key := vals[x]]
      ensures size == old(size) + (if ret == 0 then 0 else 1) && n_occupied <= old(n_occupied) + 1
      ensures old(n_occupied) < old(upper_bound) ==> n_buckets == old(n_buckets) && flags == old(flags)
      ensures old(n_occupied) < old(upper_bound) ==> n_occupied == old(n_occupied) + (if ret == 1 then 1 else 0)
      ensures old(n_occupied) < old(upper_bound) && ret != 0 ==> (ret == 2 <==> Reusable(old(slot), hash(key)))
      ensures old(n_occupied >= upper_bound && (n_buckets < 0x8000_0000 || n_buckets > 2 * size)) ==>
        && n_occupied == old(size) + (if ret == 1 then 1 else 0)
        && n_buckets == if old(n_buckets > 2 * size) then old(n_buckets)
                        else if old(n_buckets) == 0 then 4 else 2 * old(n_buckets)
      ensures fresh({flags as object, keys, vals} - old({flags as object, keys, vals}))
    {
      hide Occupied, Indexed, Reachable, Reusable;
      MakeRoom();
      x, ret := Place(key);
    }

    // After the resizing (khash.h:319-347): a deleted bucket is reused if probing meets one.
    method Place(key: K) returns (x: nat, ret: int)
      requires Valid() && (n_occupied < upper_bound || key in Contents())
      modifies this`size, this`n_occupied, this`slot, this`idx, flags, keys
      ensures Valid() && x < n_buckets && keys[x] == key && slot[x] == Live && key in Contents() &&
        vals[x] == Contents()[key]
      ensures key in old(Contents()) ==> ret == 0 && Contents() == old(Contents())
      ensures key !in old(Contents()) ==> ret in {1, 2} && Contents() == old(Contents())[key := vals[x]]
      ensures size == old(size) + (if ret == 0 then 0 else 1)
      ensures n_occupied == old(n_occupied) + (if ret == 1 then 1 else 0)
      ensures ret != 0 ==> (ret == 2 <==> Reusable(old(slot), hash(key)))
    {
      hide Occupied, Indexed, Reachable, Reusable;
      if n_buckets != 0 { BigEnough(); }
      ghost var sx, st;
      x, sx, st := Spot(key);
      if slot[x] != Live {
        ProbeEnds(slot, keys[..], hash, idx, key, st);
        ReusableSpot(slot, keys[..], hash(key), key, sx, st);
      }
      ret := Fill(key, x, sx, st);
    }

    // The end of kh_put: writes the key to a bucket that held none.
    method Fill(key: K, x: nat, ghost sx: nat, ghost st: nat) returns (ret: int)
      requires Valid() && x < n_buckets && OnPath(slot, hash(key), sx, x)
      requires n_occupied < upper_bound || slot[x] == Live
      requires if slot[x] == Live then keys[x] == key
               else Passed(slot, keys[..], hash(key), key, st) && slot[Pos(hash(key), st, n_buckets)] == Empty
      modifies this`size, this`n_occupied, this`slot, this`idx, flags, keys
      ensures Valid() && keys[x] == key && slot[x] == Live && key in Contents() && vals[x] == Contents()[key]
      ensures key in old(Contents()) ==> ret == 0 && Contents() == old(Contents())
      ensures key !in old(Contents()) ==> ret in {1, 2} && Contents() == old(Contents())[key := vals[x]]
      ensures size == old(size) + (if ret == 0 then 0 else 1)
      ensures n_occupied == old(n_occupied) + (if ret == 1 then 1 else 0)
      ensures ret == if old(slot[x]) == Live then 0 else if old(slot[x]) == Empty then 1 else 2
    {
      Tests(flags[..], slot, x);
      if IsEmpty(flags[..], x) {
        TakeEmpty(key, x, sx, st);
        ret := 1;
      } else if IsDel(flags[..], x) {
        TakeDeleted(key, x, sx, st);
        ret := 2;
      } else {
        ret := 0;
      }
    }

    method TakeEmpty(key: K, x: nat, ghost sx: nat, ghost st: nat)
      requires Valid() && n_occupied < upper_bound && x < n_buckets && OnPath(slot, hash(key), sx, x) &&
        slot[x] == Empty
      requires Passed(slot, keys[..], hash(key), key, st) && slot[Pos(hash(key), st, n_buckets)] == Empty
      modifies this`size, this`n_occupied, this`slot, this`idx, flags, keys
      ensures Valid() && keys[x] == key && slot[x] == Live && key in Contents() && vals[x] == Contents()[key]
      ensures key !in old(Contents()) && Contents() == old(Contents())[key := vals[x]]
      ensures size == old(size) + 1 && n_occupied == old(n_occupied) + 1
    {
      hide Indexed, Reachable;
      Occupy(key, x, sx, st);
      size, n_occupied := size + 1, n_occupied + 1;
    }

    method TakeDeleted(key: K, x: nat, ghost sx: nat, ghost st: nat)
      requires Valid() && n_occupied < upper_bound && x < n_buckets && OnPath(slot, hash(key), sx, x) &&
        slot[x] == Deleted
      requires Passed(slot, keys[..], hash(key), key, st) && slot[Pos(hash(key), st, n_buckets)] == Empty
      modifies this`size, this`n_occupied, this`slot, this`idx, flags, keys
      ensures Valid() && keys[x] == key && slot[x] == Live && key in Contents() && vals[x] == Contents()[key]
      ensures key !in old(Contents()) && Contents() == old(Contents())[key := vals[x]]
      ensures size == old(size) + 1 && n_occupied == old(n_occupied)
    {
      hide Indexed, Reachable;
      Occupy(key, x, sx, st);
      size := size + 1;
    }

    method Occupy(key: K, x: nat, ghost sx: nat, ghost st: nat)
      requires Valid() && n_occupied < upper_bound && x < n_buckets && OnPath(slot, hash(key), sx, x)
      requires slot[x] != Live
      requires Passed(slot, keys[..], hash(key), key, st) && slot[Pos(hash(key), st, n_buckets)] == Empty
      modifies this`slot, this`idx, flags, keys
      ensures key !in old(idx) && idx == old(idx)[key := x] && slot == old(slot)[x := Live]
      ensures Shape() && Packs(flags[..], slot) && Indexed(slot, keys[..], idx) && Reachable(slot, hash, idx)
      ensures keys[x] == key && |idx| == |old(idx)| + 1
      ensures Image(idx, vals[..]) == Image(old(idx), vals[..])[key := vals[x]]
      ensures LiveCount(slot) == LiveCount(old(slot)) + 1
      ensures Occupied(slot) == Occupied(old(slot)) + if old(slot[x]) == Empty then 1 else 0
    {
      hide Indexed, Reachable, Occupied, LiveCount, Image;
      ProbeEnds(slot, keys[..], hash, idx, key, st);
      ImageAdd(slot, keys[..], idx, vals[..], key, x);
      IndexAdd(slot, keys[..], idx, key, x);
      ReachableAdd(slot, x, hash, idx, key, sx);
      OccupiedUpdate(slot, x, Live);
      LiveUpdate(slot, x, Live);
      keys[x] := key;
      MarkLive(flags, x, slot);
      slot, idx := slot[x := Live], idx[key := x];
    }

    // kh_value(h, x) = v
    method SetValue(x: nat, v: V)
      requires Valid() && x < n_buckets && slot[x] == Live
      modifies vals
      ensures Valid() && Contents() == old(Contents())[keys[x] := v]
    {
      vals[x] := v;
    }
  }

  lemma {:induction false} Multiple(e: nat)
    requires 2 <= e
    ensures Pow2(e) % 4 == 0 && Pow2(e) >= 4 && (if e < 4 then Pow2(e) < 16 else Pow2(e) >= 16 && Pow2(e) % 16 == 0)
  {
    assert Pow2(2) == 4 && Pow2(3) == 8 && Pow2(4) == 16;
    if e > 4 { Multiple(e - 1); }
  }
}
