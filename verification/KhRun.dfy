// Whole runs of a khash table: any sequence of operations does what it does to a finite map.
module KhRun {
  import opened KhLayout
  import opened KHash
  import opened Wrappers

  // kh_put followed by kh_value(h, x) = v; kh_get followed by kh_del; kh_get followed by kh_value;
  // kh_resize; kh_clear.
  datatype Op<K, V> = Put(key: K, v: V) | Del(key: K) | Get(key: K) | Resize(n: nat) | Clear

  // What an operation does to a finite map, and what it answers.
  ghost function Apply<K, V>(m: map<K, V>, op: Op<K, V>): map<K, V> {
    match op
    case Put(k, v) => m[k := v]
    case Del(k) => m - {k}
    case Clear => map[]
    case _ => m
  }

  ghost function Answer<K, V>(m: map<K, V>, op: Op<K, V>): Option<V> {
    if op.Get? && op.key in m then Some(m[op.key]) else None
  }

  ghost function ApplyAll<K, V>(m: map<K, V>, ops: seq<Op<K, V>>): map<K, V> {
    if ops == [] then m else Apply(ApplyAll(m, ops[..|ops| - 1]), ops[|ops| - 1])
  }

  ghost function AnswerAll<K, V>(m: map<K, V>, ops: seq<Op<K, V>>): seq<Option<V>> {
    if ops == [] then []
    else AnswerAll(m, ops[..|ops| - 1]) + [Answer(ApplyAll(m, ops[..|ops| - 1]), ops[|ops| - 1])]
  }

  // What 32 bits allow: a new key is put while there are fewer than 2^30 of them, and a size is one word.
  ghost predicate Fits<K, V>(m: map<K, V>, op: Op<K, V>) {
    (op.Put? ==> op.key in m || |m| < 0x4000_0000) && (op.Resize? ==> op.n < 0x1_0000_0000)
  }

  // The table counts the keys of the map.
  lemma Size<K(!new, 0), V(0)>(t: Table<K, V>)
    requires t.Valid()
    ensures t.size == |t.Contents()|
  {
    assert t.Contents().Keys == t.idx.Keys;
    assert |t.Contents()| == |t.Contents().Keys| && |t.idx| == |t.idx.Keys|;
  }

  // There is room for another key in a map of fewer than 2^30, the half of 2^31 buckets.
  method DoPut<K(!new, ==, 0), V(0)>(t: Table<K, V>, k: K, v: V)
    requires t.Valid() && (k in t.Contents() || |t.Contents()| < 0x4000_0000)
    modifies t, t.flags, t.keys, t.vals
    ensures t.Valid() && t.Contents() == old(t.Contents())[k := v]
    ensures fresh({t.flags as object, t.keys, t.vals} - old({t.flags as object, t.keys, t.vals}))
  {
    hide Indexed, Reachable;
    Size(t);
    var x, ret := t.Put(k);
    t.SetValue(x, v);
  }

  method DoDel<K(!new, ==, 0), V(0)>(t: Table<K, V>, k: K)
    requires t.Valid()
    modifies t, t.flags
    ensures t.Valid() && t.Contents() == old(t.Contents()) - {k}
    ensures t.flags == old(t.flags) && t.keys == old(t.keys) && t.vals == old(t.vals)
  {
    hide Indexed, Reachable;
    var x := t.Get(k);
    ghost var m := t.Contents();
    assert k !in m ==> m - {k} == m;
    t.Del(x);
  }

  method Do<K(!new, ==, 0), V(0)>(t: Table<K, V>, op: Op<K, V>) returns (r: Option<V>)
    requires t.Valid() && Fits(t.Contents(), op)
    modifies t, t.flags, t.keys, t.vals
    ensures t.Valid() && t.Contents() == Apply(old(t.Contents()), op)
    ensures r == Answer(old(t.Contents()), op)
    ensures fresh({t.flags as object, t.keys, t.vals} - old({t.flags as object, t.keys, t.vals}))
  {
    hide Indexed, Reachable;
    r := None;
    match op
    case Put(k, v) => DoPut(t, k, v);
    case Del(k) => DoDel(t, k);
    case Get(k) =>
      var x := t.Get(k);
      if x != t.n_buckets { r := Some(t.vals[x]); }
    case Resize(n) => t.Resize(n);
    case Clear => t.Clear();
  }

  // Every operation fits the map that the ones before it leave.
  ghost predicate AllFit<K, V>(m: map<K, V>, ops: seq<Op<K, V>>) {
    forall i :: 0 <= i < |ops| ==> Fits(ApplyAll(m, ops[..i]), ops[i])
  }

  lemma LastFits<K, V>(m: map<K, V>, ops: seq<Op<K, V>>)
    requires AllFit(m, ops) && ops != []
    ensures var n := |ops| - 1; AllFit(m, ops[..n]) && Fits(ApplyAll(m, ops[..n]), ops[n])
  {
    var n := |ops| - 1;
    forall i | 0 <= i < n ensures Fits(ApplyAll(m, ops[..n][..i]), ops[..n][i]) {
      assert ops[..n][..i] == ops[..i];
    }
  }

  lemma Unfold<K, V>(m: map<K, V>, ops: seq<Op<K, V>>)
    ensures ops == [] ==> ApplyAll(m, ops) == m && AnswerAll(m, ops) == []
    ensures ops != [] ==> var n := |ops| - 1;
      && ApplyAll(m, ops) == Apply(ApplyAll(m, ops[..n]), ops[n])
      && AnswerAll(m, ops) == AnswerAll(m, ops[..n]) + [Answer(ApplyAll(m, ops[..n]), ops[n])]
  {
  }

  // Main theorem: a table and a finite map that go through the same operations give the same answers
  // and end with the same contents.
  method Run<K(!new, ==, 0), V(0)>(t: Table<K, V>, ops: seq<Op<K, V>>) returns (answers: seq<Option<V>>)
    requires t.Valid() && AllFit(t.Contents(), ops)
    modifies t, t.flags, t.keys, t.vals
    ensures t.Valid() && t.Contents() == ApplyAll(old(t.Contents()), ops)
    ensures answers == AnswerAll(old(t.Contents()), ops)
    ensures fresh({t.flags as object, t.keys, t.vals} - old({t.flags as object, t.keys, t.vals}))
    decreases |ops|
  {
    hide AllFit, ApplyAll, AnswerAll, Apply, Answer, Fits, Indexed, Reachable;
    Unfold(t.Contents(), ops);
    answers := [];
    if ops != [] {
      var n := |ops| - 1;
      LastFits(t.Contents(), ops);
      answers := Run(t, ops[..n]);
      var r := Do(t, ops[n]);
      answers := answers + [r];
    }
  }
}
