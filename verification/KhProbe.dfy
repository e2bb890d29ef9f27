// The probe sequence of khash.h: from the home bucket the step grows by one each time, so that the
// s-th bucket is home + s(s+1)/2 modulo the number of buckets.
module KhProbe {
  import opened Bits

  // The bucket of probe number s: i = (i + (++step)) & mask.
  function Pos(h: nat, s: nat, n: nat): (p: nat)
    requires n > 0
    ensures p < n
  {
    if s == 0 then Mod(h, n) else Mod(Pos(h, s - 1, n) + s, n)
  }

  function Tri(s: nat): nat { if s == 0 then 0 else Tri(s - 1) + s }

  lemma {:induction false} TriTwice(s: nat)
    ensures 2 * Tri(s) == s * (s + 1)
  {
    if s > 0 {
      TriTwice(s - 1);
      assert s * (s + 1) == (s - 1) * s + 2 * s;
    }
  }

  lemma {:induction false} PosTri(h: nat, s: nat, n: nat)
    requires n > 0
    ensures Pos(h, s, n) == Mod(h + Tri(s), n)
  {
    if s > 0 {
      PosTri(h, s - 1, n);
      ModAdd(h + Tri(s - 1), s, n);
    }
  }

  // A power of two that divides a product with one odd factor divides the other.
  lemma {:induction false} OddFactor(a: nat, c: nat, m: nat, k: nat) returns (d: nat)
    requires a % 2 == 1 && a * c == k * Pow2(m)
    ensures c == d * Pow2(m)
  {
    if m == 0 {
      d := c;
    } else {
      var p := Pow2(m - 1);
      Regroup(k, p);
      EvenFactor(a, c, k * p);
      d := OddFactor(a, c / 2, m - 1, k);
      Regroup(d, p);
    }
  }

  lemma EvenFactor(a: nat, c: nat, x: nat)
    requires a % 2 == 1 && a * c == 2 * x
    ensures c % 2 == 0 && a * (c / 2) == x
  {
    var a2, c2 := a / 2, c / 2;
    assert a * c == (2 * a2 + 1) * c == 2 * (a2 * c) + c;
    assert c == 2 * c2;
    assert a * (2 * c2) == 2 * (a * c2);
  }

  // Two positive factors below 2n of different parity, n a power of two: half their product is no
  // multiple of n.
  lemma NoMultiple(u: nat, v: nat, d: int, b: nat, k: int)
    requires 0 < u < Pow2(b + 1) && 0 < v < Pow2(b + 1) && u % 2 != v % 2 && u * v == 2 * d
    ensures d != k * Pow2(b)
  {
    if d == k * Pow2(b) {
      Combine(u, v, d, k, Pow2(b));
      MulCommutes(u, v);
      var e: nat;
      if u % 2 == 1 { e := OddFactor(u, v, b + 1, k); } else { e := OddFactor(v, u, b + 1, k); }
      if e >= 1 { MulMonotone(1, e, Pow2(b + 1)); }
    }
  }

  lemma Combine(u: nat, v: nat, d: int, k: int, n: nat)
    requires 0 < u && 0 < v && u * v == 2 * d && d == k * n
    ensures k > 0 && u * v == k * (2 * n)
  {
    Regroup(k, n);
    assert u * v >= 1 by { MulMonotone(1, u, v); }
    if k <= 0 { MulMonotone(k, 0, n); }
  }

  // With a power-of-two table no bucket comes up twice within one round of n probes.
  lemma PosInjective(h: nat, s: nat, t: nat, b: nat)
    requires s < t < Pow2(b)
    ensures Pos(h, s, Pow2(b)) != Pos(h, t, Pow2(b))
  {
    PosTri(h, s, Pow2(b));
    PosTri(h, t, Pow2(b));
    TriInjective(h, s, t, b);
  }

  lemma Parity(s: nat, t: nat)
    requires s < t
    ensures (t - s) % 2 != (t + s + 1) % 2
  {
    assert t + s + 1 == (t - s) + 2 * s + 1;
  }

  lemma TriInjective(h: nat, s: nat, t: nat, b: nat)
    requires s < t < Pow2(b)
    ensures Mod(h + Tri(s), Pow2(b)) != Mod(h + Tri(t), Pow2(b))
  {
    if Mod(h + Tri(s), Pow2(b)) == Mod(h + Tri(t), Pow2(b)) {
      var k := ModSame(h + Tri(s), h + Tri(t), Pow2(b));
      TriGap(s, t);
      Parity(s, t);
      NoMultiple(t - s, t + s + 1, Tri(t) - Tri(s), b, k);
    }
  }

  lemma TriGap(s: nat, t: nat)
    requires s < t
    ensures (t - s) * (t + s + 1) == 2 * (Tri(t) - Tri(s))
  {
    TriTwice(s);
    TriTwice(t);
    assert (t - s) * (t + s + 1) == t * (t + 1) - s * (s + 1);
  }

  // ----- coverage -----

  ghost function Seen(h: nat, s: nat, n: nat): set<nat>
    requires n > 0
  {
    set t | 0 <= t < s :: Pos(h, t, n)
  }

  lemma {:induction false} SeenSize(h: nat, s: nat, b: nat)
    requires s <= Pow2(b)
    ensures |Seen(h, s, Pow2(b))| == s
  {
    var n := Pow2(b);
    if s > 0 {
      SeenSize(h, s - 1, b);
      assert Pos(h, s - 1, n) !in Seen(h, s - 1, n) by {
        forall t | 0 <= t < s - 1 ensures Pos(h, t, n) != Pos(h, s - 1, n) { PosInjective(h, t, s - 1, b); }
      }
      assert Seen(h, s, n) == Seen(h, s - 1, n) + {Pos(h, s - 1, n)};
    }
  }

  ghost function Range(n: nat): (r: set<nat>)
    ensures |r| == n && forall i: nat :: i in r <==> i < n
  {
    if n == 0 then {} else Range(n - 1) + {n - 1}
  }

  lemma SubsetSame(a: set<nat>, b: set<nat>)
    requires a <= b && |a| == |b|
    ensures a == b
  {
    assert b == a + (b - a);
    assert |b| == |a| + |b - a|;
  }

  // Every bucket comes up within one round.
  lemma Covers(h: nat, i: nat, b: nat)
    requires i < Pow2(b)
    ensures exists s :: 0 <= s < Pow2(b) && Pos(h, s, Pow2(b)) == i
  {
    var n := Pow2(b);
    SeenSize(h, n, b);
    SubsetSame(Seen(h, n, n), Range(n));
    assert i in Seen(h, n, n);
  }
}
