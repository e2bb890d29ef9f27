// The packed flags of khash.h: two bits per bucket, sixteen buckets in a 32-bit word.  Bit 1 says the
// bucket is empty, bit 0 that it is deleted.
module KhFlags {
  datatype Slot = Empty | Deleted | Live

  // (i & 0xf) << 1
  function Shift(i: nat): (s: bv6)
    ensures s <= 30 && s & 1 == 0 && Unshift(s) == i % 16
  {
    Twice(i % 16)
  }

  function Twice(j: nat): (s: bv6)
    requires j < 16
    ensures s <= 30 && s & 1 == 0 && Unshift(s) == j
  {
    if j == 0 then 0 else Twice(j - 1) + 2
  }

  ghost function Unshift(s: bv6): nat {
    if s == 0 then 0 else if s == 2 then 1 else if s == 4 then 2 else if s == 6 then 3
    else if s == 8 then 4 else if s == 10 then 5 else if s == 12 then 6 else if s == 14 then 7
    else if s == 16 then 8 else if s == 18 then 9 else if s == 20 then 10 else if s == 22 then 11
    else if s == 24 then 12 else if s == 26 then 13 else if s == 28 then 14 else 15
  }

  // __ac_fsize
  function Words(m: nat): nat { if m < 16 then 1 else m / 16 }

  function Bits(w: seq<bv32>, i: nat): bv32
    requires i / 16 < |w|
  {
    (w[i / 16] >> Shift(i)) & 3
  }

  predicate IsEmpty(w: seq<bv32>, i: nat)
    requires i / 16 < |w|
  {
    (w[i / 16] >> Shift(i)) & 2 != 0
  }

  predicate IsDel(w: seq<bv32>, i: nat)
    requires i / 16 < |w|
  {
    (w[i / 16] >> Shift(i)) & 1 != 0
  }

  predicate IsEither(w: seq<bv32>, i: nat)
    requires i / 16 < |w|
  {
    (w[i / 16] >> Shift(i)) & 3 != 0
  }

  function SetDelTrue(w: seq<bv32>, i: nat): seq<bv32>
    requires i / 16 < |w|
  {
    w[i / 16 := w[i / 16] | (1 << Shift(i))]
  }

  function SetEmptyFalse(w: seq<bv32>, i: nat): seq<bv32>
    requires i / 16 < |w|
  {
    w[i / 16 := w[i / 16] & !(2 << Shift(i))]
  }

  function SetBothFalse(w: seq<bv32>, i: nat): seq<bv32>
    requires i / 16 < |w|
  {
    w[i / 16 := w[i / 16] & !(3 << Shift(i))]
  }

  // What the two bits of a bucket mean.
  ghost function At(w: seq<bv32>, i: nat): Slot {
    if i / 16 >= |w| || IsEmpty(w, i) then Empty else if IsDel(w, i) then Deleted else Live
  }

  // The new flags of a rehash are never marked deleted.
  ghost predicate Clean(w: seq<bv32>) {
    forall i: nat {:trigger At(w, i)} :: i / 16 < |w| ==> !IsDel(w, i)
  }

  lemma TestsAt(w: seq<bv32>, i: nat)
    requires i / 16 < |w|
    ensures IsEmpty(w, i) <==> At(w, i) == Empty
    ensures IsDel(w, i) && !IsEmpty(w, i) <==> At(w, i) == Deleted
    ensures !IsEither(w, i) <==> At(w, i) == Live
  {
    var x := w[i / 16] >> Shift(i);
    assert x & 3 != 0 <==> x & 2 != 0 || x & 1 != 0;
  }

  function Field(x: bv32, t: bv6): bv32
    requires t <= 30
  {
    (x >> t) & 3
  }

  // Updating one field of a word leaves the other fields alone.
  lemma DelTrueApart(w: bv32, s: bv6, t: bv6)
    requires s <= 30 && t <= 30 && s & 1 == 0 && t & 1 == 0 && s != t
    ensures Field(w | (1 << s), t) == Field(w, t)
  {
  }

  lemma EmptyFalseApart(w: bv32, s: bv6, t: bv6)
    requires s <= 30 && t <= 30 && s & 1 == 0 && t & 1 == 0 && s != t
    ensures Field(w & !(2 << s), t) == Field(w, t)
  {
  }

  lemma BothFalseApart(w: bv32, s: bv6, t: bv6)
    requires s <= 30 && t <= 30 && s & 1 == 0 && t & 1 == 0 && s != t
    ensures Field(w & !(3 << s), t) == Field(w, t)
  {
  }

  lemma FieldSet(w: bv32, s: bv6)
    requires s <= 30 && s & 1 == 0
    ensures Field(w | (1 << s), s) == Field(w, s) | 1
    ensures Field(w & !(2 << s), s) == Field(w, s) & 1
    ensures Field(w & !(3 << s), s) == 0
  {
  }

  lemma SameField(a: bv32, b: bv32, t: bv6)
    requires t <= 30 && Field(a, t) == Field(b, t)
    ensures (a >> t) & 2 == (b >> t) & 2 && (a >> t) & 1 == (b >> t) & 1
  {
    var x, y := a >> t, b >> t;
    assert x & 3 == y & 3 ==> x & 2 == y & 2 && x & 1 == y & 1;
  }

  lemma ShiftDiffers(i: nat, j: nat)
    requires i / 16 == j / 16 && i != j
    ensures Shift(i) != Shift(j)
  {
    assert i % 16 != j % 16;
  }

  // The three updates of bucket i keep every other bucket.
  lemma KeepsDelTrue(w: seq<bv32>, i: nat, j: nat)
    requires i / 16 < |w| && j / 16 < |w| && i != j
    ensures At(SetDelTrue(w, i), j) == At(w, j) && IsDel(SetDelTrue(w, i), j) == IsDel(w, j)
  {
    var s, t := Shift(i), Shift(j);
    KeepsWord(w, i, j, s, t, w[i / 16] | (1 << s)) by {
      if i / 16 == j / 16 { ShiftDiffers(i, j); DelTrueApart(w[i / 16], s, t); }
    }
  }

  lemma KeepsEmptyFalse(w: seq<bv32>, i: nat, j: nat)
    requires i / 16 < |w| && j / 16 < |w| && i != j
    ensures At(SetEmptyFalse(w, i), j) == At(w, j) && IsDel(SetEmptyFalse(w, i), j) == IsDel(w, j)
  {
    var s, t := Shift(i), Shift(j);
    KeepsWord(w, i, j, s, t, w[i / 16] & !(2 << s)) by {
      if i / 16 == j / 16 { ShiftDiffers(i, j); EmptyFalseApart(w[i / 16], s, t); }
    }
  }

  lemma KeepsBothFalse(w: seq<bv32>, i: nat, j: nat)
    requires i / 16 < |w| && j / 16 < |w| && i != j
    ensures At(SetBothFalse(w, i), j) == At(w, j)
  {
    var s, t := Shift(i), Shift(j);
    KeepsWord(w, i, j, s, t, w[i / 16] & !(3 << s)) by {
      if i / 16 == j / 16 { ShiftDiffers(i, j); BothFalseApart(w[i / 16], s, t); }
    }
  }

  lemma KeepsWord(w: seq<bv32>, i: nat, j: nat, s: bv6, t: bv6, x: bv32)
    requires i / 16 < |w| && j / 16 < |w| && t == Shift(j)
    requires i / 16 == j / 16 ==> Field(x, t) == Field(w[i / 16], t)
    ensures At(w[i / 16 := x], j) == At(w, j) && IsDel(w[i / 16 := x], j) == IsDel(w, j)
  {
    if i / 16 == j / 16 { SameField(x, w[i / 16], t); }
  }

  // Marking a live bucket deleted changes that bucket only.
  lemma DelTrueAt(w: seq<bv32>, i: nat)
    requires At(w, i) == Live
    ensures At(SetDelTrue(w, i), i) == Deleted
    ensures forall j: nat {:trigger At(SetDelTrue(w, i), j)} :: j != i ==> At(SetDelTrue(w, i), j) == At(w, j)
  {
    var v := SetDelTrue(w, i);
    FieldSet(w[i / 16], Shift(i));
    Decode(v, i);
    Decode(w, i);
    forall j: nat | j != i ensures At(v, j) == At(w, j) {
      if j / 16 < |w| { KeepsDelTrue(w, i, j); }
    }
  }

  // Clearing the empty bit of a bucket of clean flags makes it live.
  lemma EmptyFalseAt(w: seq<bv32>, i: nat)
    requires i / 16 < |w| && Clean(w)
    ensures At(SetEmptyFalse(w, i), i) == Live && Clean(SetEmptyFalse(w, i))
    ensures forall j: nat {:trigger At(SetEmptyFalse(w, i), j)} :: j != i ==> At(SetEmptyFalse(w, i), j) == At(w, j)
  {
    var v := SetEmptyFalse(w, i);
    FieldSet(w[i / 16], Shift(i));
    Decode(v, i);
    Decode(w, i);
    assert At(w, i) == At(w, i);
    forall j: nat | j != i ensures At(v, j) == At(w, j) {
      if j / 16 < |w| { KeepsEmptyFalse(w, i, j); }
    }
    forall j: nat | j / 16 < |v| ensures !IsDel(v, j) {
      assert At(w, j) == At(w, j);
      if j != i { KeepsEmptyFalse(w, i, j); }
    }
  }

  // Clearing both bits makes a bucket live.
  lemma BothFalseAt(w: seq<bv32>, i: nat)
    requires i / 16 < |w|
    ensures At(SetBothFalse(w, i), i) == Live
    ensures forall j: nat {:trigger At(SetBothFalse(w, i), j)} :: j != i ==> At(SetBothFalse(w, i), j) == At(w, j)
  {
    var v := SetBothFalse(w, i);
    FieldSet(w[i / 16], Shift(i));
    Decode(v, i);
    forall j: nat | j != i ensures At(v, j) == At(w, j) {
      if j / 16 < |w| { KeepsBothFalse(w, i, j); }
    }
  }

  lemma Decode(w: seq<bv32>, i: nat)
    requires i / 16 < |w|
    ensures IsEmpty(w, i) <==> Bits(w, i) & 2 != 0
    ensures IsDel(w, i) <==> Bits(w, i) & 1 != 0
  {
    var x := w[i / 16] >> Shift(i);
    assert (x & 3) & 2 == x & 2 && (x & 3) & 1 == x & 1;
  }

  // memset(flags, 0xaa, ...) marks every bucket empty.
  lemma Fresh(w: seq<bv32>)
    requires forall k :: 0 <= k < |w| ==> w[k] == 0xaaaa_aaaa
    ensures Clean(w) && forall i: nat :: At(w, i) == Empty
  {
    forall i: nat | i / 16 < |w| ensures IsEmpty(w, i) && !IsDel(w, i) {
      FreshField(w[i / 16], Shift(i));
    }
  }

  lemma FreshField(w: bv32, s: bv6)
    requires w == 0xaaaa_aaaa && s <= 30 && s & 1 == 0
    ensures (w >> s) & 2 != 0 && (w >> s) & 1 == 0
  {
  }

  // The words w pack the slots f.
  ghost predicate Packs(w: seq<bv32>, f: seq<Slot>) {
    |f| <= 16 * |w| && forall i: nat {:trigger At(w, i)} :: i < |f| ==> At(w, i) == f[i]
  }

  // The tests on the flags of bucket i say what the slot is.
  ghost predicate Agrees(w: seq<bv32>, f: seq<Slot>, i: nat)
    requires Packs(w, f)
  {
    && i < |f|
    && (IsEmpty(w, i) <==> f[i] == Empty)
    && (!IsEmpty(w, i) ==> (IsDel(w, i) <==> f[i] == Deleted))
    && (IsEither(w, i) <==> f[i] != Live)
  }

  lemma Tests(w: seq<bv32>, f: seq<Slot>, i: nat)
    requires Packs(w, f) && i < |f|
    ensures Agrees(w, f, i)
  {
    TestsAt(w, i);
    assert At(w, i) == f[i];
  }

  lemma LiveTest(w: seq<bv32>, f: seq<Slot>, i: nat)
    requires Packs(w, f) && i < |f|
    ensures IsEither(w, i) <==> f[i] != Live
  {
    Tests(w, f, i);
  }

  // __ac_set_isdel_true on a live bucket
  method MarkDeleted(a: array<bv32>, i: nat, ghost f: seq<Slot>)
    requires Packs(a[..], f) && i < |f| && f[i] == Live
    modifies a
    ensures Packs(a[..], f[i := Deleted])
  {
    ghost var w := a[..];
    assert At(w, i) == Live;
    a[i / 16] := a[i / 16] | (1 << Shift(i));
    assert a[..] == SetDelTrue(w, i);
    DelTrueAt(w, i);
  }

  // __ac_set_isempty_false on an empty bucket of new flags
  method MarkFilled(a: array<bv32>, i: nat, ghost f: seq<Slot>)
    requires Packs(a[..], f) && i < |f| && Clean(a[..])
    modifies a
    ensures Packs(a[..], f[i := Live]) && Clean(a[..])
  {
    ghost var w := a[..];
    a[i / 16] := a[i / 16] & !(2 << Shift(i));
    assert a[..] == SetEmptyFalse(w, i);
    EmptyFalseAt(w, i);
  }

  // __ac_set_isboth_false
  method MarkLive(a: array<bv32>, i: nat, ghost f: seq<Slot>)
    requires Packs(a[..], f) && i < |f|
    modifies a
    ensures Packs(a[..], f[i := Live])
  {
    ghost var w := a[..];
    a[i / 16] := a[i / 16] & !(3 << Shift(i));
    assert a[..] == SetBothFalse(w, i);
    BothFalseAt(w, i);
  }

  ghost function AllEmpty(n: nat): seq<Slot> { seq(n, _ => Empty) }

  // memset(flags, 0xaa, ...)
  method MarkAllEmpty(a: array<bv32>, ghost n: nat)
    requires n <= 16 * a.Length
    modifies a
    ensures Clean(a[..]) && Packs(a[..], AllEmpty(n))
  {
    for k := 0 to a.Length
      invariant forall j :: 0 <= j < k ==> a[j] == 0xaaaa_aaaa
    {
      a[k] := 0xaaaa_aaaa;
    }
    Fresh(a[..]);
  }
}
