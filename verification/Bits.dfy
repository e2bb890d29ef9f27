// Unsigned 32-bit arithmetic used by khash.h, on natural numbers: masks, shifts and kroundup32.
module Bits {
  const TWO_32 := 0x1_0000_0000

  function Pow2(n: nat): (p: nat)
    ensures p >= 1
  {
    if n == 0 then 1 else 2 * Pow2(n - 1)
  }

  lemma {:induction false} Pow2Add(a: nat, b: nat)
    ensures Pow2(a + b) == Pow2(a) * Pow2(b)
  {
    if a > 0 { Pow2Add(a - 1, b); }
  }

  lemma {:induction false} Pow2Less(a: nat, b: nat)
    requires a < b
    ensures Pow2(a) < Pow2(b)
  {
    if a + 1 < b { Pow2Less(a, b - 1); }
  }

  lemma Pow2Monotone(a: nat, b: nat)
    requires a <= b
    ensures Pow2(a) <= Pow2(b)
  {
    if a < b { Pow2Less(a, b); }
  }

  // Bitwise operations.
  function And(x: nat, y: nat): nat {
    if x == 0 || y == 0 then 0 else 2 * And(x / 2, y / 2) + (if x % 2 == 1 && y % 2 == 1 then 1 else 0)
  }

  function Or(x: nat, y: nat): nat {
    if x == 0 then y else if y == 0 then x
    else 2 * Or(x / 2, y / 2) + (if x % 2 == 1 || y % 2 == 1 then 1 else 0)
  }

  function Shr(x: nat, k: nat): nat { if k == 0 then x else Shr(x / 2, k - 1) }

  // x >> k is the quotient by 2^k.
  lemma {:induction false} ShrQuotient(x: nat, k: nat)
    ensures Shr(x, k) * Pow2(k) <= x < (Shr(x, k) + 1) * Pow2(k)
  {
    if k > 0 {
      var y, p := Shr(x / 2, k - 1), Pow2(k - 1);
      ShrQuotient(x / 2, k - 1);
      Regroup(y, p);
      Regroup(y + 1, p);
    }
  }

  lemma Regroup(k: int, n: int)
    ensures 2 * (k * n) == k * (2 * n)
  {
  }

  // The remainder, by repeated subtraction.
  function Mod(x: nat, n: nat): (r: nat)
    requires n > 0
    ensures r < n
  {
    if x < n then x else Mod(x - n, n)
  }

  lemma {:induction false} ModRemainder(x: nat, n: nat)
    requires n > 0
    ensures Mod(x, n) == x % n
    decreases x
  {
    var q, r := x / n, x % n;
    assert x == q * n + r;
    if x < n {
      DivUnique(x, n, 0, x);
    } else {
      ModRemainder(x - n, n);
      DivUnique(x - n, n, q - 1, r) by { assert (q - 1) * n == q * n - n; }
    }
  }

  // Masking with a power of two less one is the remainder.
  lemma {:induction false} AndMask(x: nat, b: nat)
    ensures And(x, Pow2(b) - 1) == Mod(x, Pow2(b))
  {
    if b > 0 && x > 0 {
      var p := Pow2(b - 1);
      AndMask(x / 2, b - 1);
      ModDouble(x, p);
      assert (2 * p - 1) / 2 == p - 1 && (2 * p - 1) % 2 == 1;
      assert And(x, 2 * p - 1) == 2 * And(x / 2, p - 1) + x % 2;
    } else if b == 0 {
      assert Mod(x, 1) == 0;
    }
  }

  lemma {:induction false} ModDouble(x: nat, p: nat)
    requires p > 0
    ensures Mod(x, 2 * p) == 2 * Mod(x / 2, p) + x % 2
    decreases x
  {
    if x >= 2 * p { ModDouble(x - 2 * p, p); }
  }

  lemma {:induction false} ModAdd(a: nat, b: nat, n: nat)
    requires n > 0
    ensures Mod(Mod(a, n) + b, n) == Mod(a + b, n)
    decreases a
  {
    if a >= n { ModAdd(a - n, b, n); }
  }

  // Numbers with the same remainder differ by a multiple.
  lemma {:induction false} ModSame(x: nat, y: nat, n: nat) returns (k: int)
    requires n > 0 && Mod(x, n) == Mod(y, n)
    ensures y - x == k * n
    decreases x + y
  {
    if x >= n {
      k := ModSame(x - n, y, n);
      assert (k - 1) * n == k * n - n;
      k := k - 1;
    } else if y >= n {
      k := ModSame(x, y - n, n);
      assert (k + 1) * n == k * n + n;
      k := k + 1;
    } else {
      k := 0;
    }
  }

  lemma ModHalf(x: nat, p: nat)
    requires p > 0
    ensures x % (2 * p) == 2 * (x / 2 % p) + x % 2
  {
    var q, r := x / 2 / p, x / 2 % p;
    assert x == 2 * (q * p + r) + x % 2;
    DivUnique(x, 2 * p, q, 2 * r + x % 2);
  }

  lemma MulMonotone(a: int, b: int, c: int)
    requires a <= b && 0 <= c
    ensures a * c <= b * c
  {
    assert (b - a) * c >= 0;
    assert b * c == a * c + (b - a) * c;
  }

  lemma DivUnique(x: int, d: int, q: int, r: int)
    requires d > 0 && 0 <= r < d && x == q * d + r
    ensures x / d == q && x % d == r
  {
    var e := q - x / d;
    assert e * d == x % d - r by { assert x == (x / d) * d + x % d; assert e * d == q * d - (x / d) * d; }
    if e >= 1 { MulMonotone(1, e, d); } else if e <= -1 { MulMonotone(e, -1, d); }
  }

  // ----- kroundup32 (khash.h:176) -----

  function Smear(x: nat, k: nat): nat { Or(x, Shr(x, k)) }

  // x |= x >> k, with k doubling up to 16.
  function SmearFrom(x: nat, k: nat): nat
    requires k > 0
    decreases 32 - k
  {
    if k > 16 then x else SmearFrom(Smear(x, k), 2 * k)
  }

  // --x, five smears, ++x, in 32 bits.
  function RoundUp32(x: nat): nat {
    (SmearFrom((x + TWO_32 - 1) % TWO_32, 1) + 1) % TWO_32
  }

  lemma {:induction false} OrBelow(x: nat, y: nat, b: nat)
    requires x < Pow2(b) && y < Pow2(b)
    ensures Or(x, y) < Pow2(b)
  {
    if x > 0 && y > 0 {
      OrBelow(x / 2, y / 2, b - 1);
    }
  }

  lemma {:induction false} OrHigh(x: nat, y: nat, c: nat)
    requires y < Pow2(c)
    ensures Or(x, y) >= x - x % Pow2(c) + y
  {
    if x > 0 && y > 0 {
      OrHigh(x / 2, y / 2, c - 1);
      ModHalf(x, Pow2(c - 1));
    }
  }

  // The top k of the b bits of x are set.
  ghost predicate Top(x: nat, b: nat, k: nat) {
    k <= b && Pow2(b) - Pow2(b - k) <= x < Pow2(b)
  }

  // One smear doubles the number of leading one bits.
  lemma SmearTop(x: nat, b: nat, k: nat)
    requires Top(x, b, k) && 0 < k
    ensures Top(Smear(x, k), b, if 2 * k <= b then 2 * k else b)
  {
    var c := b - k;
    var p, q := Pow2(k), Pow2(c);
    var y := Shr(x, k);
    Pow2Add(k, c);
    Pow2Less(c, b);
    ShrQuotient(x, k);
    MulCommutes(p, q);
    if y >= q { MulMonotone(q, y, p); }
    LowPart(x, p, q);
    OrHigh(x, y, c);
    OrBelow(x, y, b);
    if 2 * k <= b {
      var r := Pow2(c - k);
      Pow2Add(k, c - k);
      ShiftLow(x, y, p, q, r);
    } else {
      Pow2Less(c, k);
      ShiftLow(x, y, p, q, 1);
    }
  }

  lemma MulCommutes(u: int, v: int)
    ensures u * v == v * u
  {
  }

  // For x with all its bits above q set, that is p*q - q <= x < p*q.
  lemma LowPart(x: nat, p: nat, q: nat)
    requires p > 0 && q > 0 && p * q - q <= x < p * q
    ensures x - x % q == p * q - q
  {
    assert (p - 1) * q == p * q - q;
    DivUnique(x, q, p - 1, x - (p - 1) * q);
  }

  lemma ShiftLow(x: nat, y: nat, p: nat, q: nat, r: nat)
    requires x < (y + 1) * p && p * q - q <= x && (q == p * r || (r == 1 && q < p))
    ensures y >= q - r
  {
    assert (q - r) * p == p * q - p * r;
    if y < q - r { MulMonotone(y + 1, q - r, p); }
  }

  lemma {:induction false} SmearsTop(x: nat, b: nat, k: nat)
    requires 0 < b <= 32 && k in {1, 2, 4, 8, 16, 32} && Top(x, b, if k <= b then k else b)
    ensures SmearFrom(x, k) == Pow2(b) - 1
    decreases 32 - k
  {
    if k <= 16 {
      SmearMore(x, b, if k <= b then k else b, k);
      SmearsTop(Smear(x, k), b, 2 * k);
    }
  }

  // kroundup32 gives the least power of two that is not below x; a result of 2^32 wraps to 0.
  lemma RoundUpLeast(x: nat, b: nat)
    requires 1 <= x < TWO_32
    requires b <= 32 && x <= Pow2(b) && (b > 0 ==> Pow2(b - 1) < x)
    ensures RoundUp32(x) == Pow2(b) % TWO_32
  {
    WrapDown(x);
    if b > 0 { SmearsTop(x - 1, b, 1); } else { SmearsZero(1); }
  }

  // So kroundup32 gives 0 or a power of two that fits 32 bits.
  lemma RoundUpPow2(x: nat) returns (b: nat)
    requires x < TWO_32
    ensures RoundUp32(x) == 0 || (b < 32 && RoundUp32(x) == Pow2(b))
  {
    Pow2At32();
    if x == 0 {
      RoundUpZero();
      b := 0;
    } else {
      b := LeastExponent(x, 32);
      RoundUpLeast(x, b);
      if b < 32 { Pow2Less(b, 32); SmallRemainder(Pow2(b)); }
    }
  }

  lemma SmallRemainder(p: nat)
    requires p < TWO_32
    ensures p % TWO_32 == p
  {
  }

  lemma RoundUpZero()
    ensures RoundUp32(0) == 0
  {
    Pow2At32();
    SmallRemainder(TWO_32 - 1);
    SmearsTop(TWO_32 - 1, 32, 1);
  }

  lemma {:induction false} LeastExponent(x: nat, m: nat) returns (b: nat)
    requires 1 <= x <= Pow2(m)
    ensures b <= m && x <= Pow2(b) && (b > 0 ==> Pow2(b - 1) < x)
  {
    if m > 0 && x <= Pow2(m - 1) {
      b := LeastExponent(x, m - 1);
    } else {
      b := m;
    }
  }

  lemma {:induction false} SmearsZero(k: nat)
    requires k > 0
    ensures SmearFrom(0, k) == 0
    decreases 32 - k
  {
    ShrQuotient(0, k);
    Pow2Less(0, k);
    if Shr(0, k) >= 1 { MulMonotone(1, Shr(0, k), Pow2(k)); }
    if k <= 16 { SmearsZero(2 * k); }
  }

  lemma WrapDown(x: nat)
    requires 1 <= x < TWO_32
    ensures (x + TWO_32 - 1) % TWO_32 == x - 1
  {
  }

  lemma Pow2At32()
    ensures Pow2(32) == TWO_32
  {
    assert Pow2(8) == 256;
    Pow2Add(8, 8);
    Pow2Add(16, 16);
  }

  lemma SmearMore(x: nat, b: nat, k: nat, m: nat)
    requires b > 0 && 0 < m && k == (if m <= b then m else b) && Top(x, b, k)
    ensures Top(Smear(x, m), b, if 2 * m <= b then 2 * m else b)
  {
    if m <= b {
      SmearTop(x, b, m);
    } else {
      Pow2Less(b, m);
      ShrQuotient(x, m);
      if Shr(x, m) >= 1 { MulMonotone(1, Shr(x, m), Pow2(m)); }
    }
  }
}
