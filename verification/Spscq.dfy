// The single-producer single-consumer ring of spscq.c, as a transition system: every load and store
// of a position and every access to a slot is one step, and the steps of the two threads interleave
// in any way.
module Spscq {
  import opened Wrappers

  // Where the producer is in spscq_push(e), with its local variables: after the load of write_pos,
  // after finding room, after filling the slot.
  datatype Producer<T> = Free | Loaded(e: T, cur: nat) | Room(e: T, cur: nat, next: nat) | Filled(e: T, next: nat)

  // Where the consumer is in spscq_pop or spscq_peek: after the load of read_pos, after finding an
  // element, and, in pop only, after the store to read_pos.
  datatype Consumer = Done | Seeking(peek: bool, cur: nat) | Found(peek: bool, cur: nat) | Taken(cur: nat)

  datatype Outcome<T> = NoCall | Nothing | Got(v: T)

  // The first fields are those of the program.  The others keep books: the elements published so far,
  // how many of them read_pos has passed, and the elements that pop has returned.
  datatype State<T> = State(records: seq<T>, readPos: nat, writePos: nat,
                            prod: Producer<T>, cons: Consumer, pushed: bool, outcome: Outcome<T>,
                            log: seq<T>, r: nat, popped: seq<T>)

  datatype Action<T> = Push(e: T) | Produce | Pop | Peek | Consume

  // pos + 1, or 0 at the end of the ring
  function Bump(pos: nat, capacity: nat): nat {
    if pos + 1 == capacity then 0 else pos + 1
  }

  // spscq_init
  function Init<T>(records: seq<T>): State<T> {
    State(records, 0, 0, Free, Done, false, NoCall, [], 0, [])
  }

  predicate Enabled<T>(s: State<T>, a: Action<T>) {
    match a
    case Push(_) => s.prod.Free?
    case Produce => !s.prod.Free?
    case Pop => s.cons.Done?
    case Peek => s.cons.Done?
    case Consume => !s.cons.Done?
  }

  // What the code needs of the local variables to stay in bounds.
  predicate InBounds<T>(s: State<T>) {
    && (s.prod.Room? ==> s.prod.cur < |s.records|)
    && (s.cons.Found? ==> s.cons.cur < |s.records|)
    && (s.cons.Taken? ==> s.cons.cur < |s.records|)
  }

  function Step<T>(s: State<T>, a: Action<T>): State<T>
    requires Enabled(s, a) && InBounds(s)
  {
    match a
    case Push(e) => s.(prod := Loaded(e, s.writePos))
    case Produce => ProducerStep(s)
    case Pop => s.(cons := Seeking(false, s.readPos))
    case Peek => s.(cons := Seeking(true, s.readPos))
    case Consume => ConsumerStep(s)
  }

  function ProducerStep<T>(s: State<T>): State<T>
    requires !s.prod.Free? && InBounds(s)
  {
    match s.prod
    case Loaded(e, cur) =>
      var next := Bump(cur, |s.records|);
      if next != s.readPos then s.(prod := Room(e, cur, next)) else s.(prod := Free, pushed := false)
    case Room(e, cur, next) => s.(records := s.records[cur := e], prod := Filled(e, next))
    case Filled(e, next) => s.(writePos := next, prod := Free, pushed := true, log := s.log + [e])
  }

  function ConsumerStep<T>(s: State<T>): State<T>
    requires !s.cons.Done? && InBounds(s)
  {
    match s.cons
    case Seeking(peek, cur) =>
      if cur == s.writePos then s.(cons := Done, outcome := Nothing) else s.(cons := Found(peek, cur))
    case Found(peek, cur) =>
      if peek then s.(cons := Done, outcome := Got(s.records[cur]))
      else s.(readPos := Bump(cur, |s.records|), cons := Taken(cur), r := s.r + 1)
    case Taken(cur) =>
      s.(cons := Done, outcome := Got(s.records[cur]), popped := s.popped + [s.records[cur]])
  }

  // The slot of element number k.
  ghost function Slot(k: nat, capacity: nat): (pos: nat)
    requires capacity > 0
    ensures pos < capacity
  {
    if k == 0 then 0 else Bump(Slot(k - 1, capacity), capacity)
  }

  lemma {:induction false} SlotShift(k: nat, d: nat, capacity: nat)
    requires d < capacity
    ensures var p := Slot(k, capacity) + d; Slot(k + d, capacity) == if p < capacity then p else p - capacity
    decreases d
  {
    if d > 0 { SlotShift(k, d - 1, capacity); }
  }

  // Fewer than capacity elements in a row have different slots.
  lemma SlotsDiffer(i: nat, j: nat, capacity: nat)
    requires i < j < i + capacity
    ensures Slot(i, capacity) != Slot(j, capacity)
  {
    SlotShift(i, j - i, capacity);
  }

  // The elements not yet passed by read_pos, and the one that pop is about to read, are in their slots.
  ghost predicate Kept<T>(s: State<T>, k: nat)
    requires |s.records| > 0 && k < |s.log|
  {
    s.records[Slot(k, |s.records|)] == s.log[k]
  }

  // The number of the oldest element still to be read.
  ghost function First<T>(s: State<T>): int {
    if s.cons.Taken? then s.r - 1 else s.r
  }

  ghost predicate Inv<T>(s: State<T>) {
    var n, w := |s.records|, |s.log|;
    && n >= 2 && s.r <= w <= s.r + n - 1
    && s.readPos == Slot(s.r, n) && s.writePos == Slot(w, n)
    && (match s.prod
        case Free => true
        case Loaded(_, cur) => cur == s.writePos
        case Room(_, cur, next) => cur == s.writePos && next == Bump(cur, n) && w + 1 <= s.r + n - 1
        case Filled(e, next) => next == Bump(s.writePos, n) && w + 1 <= s.r + n - 1 && s.records[s.writePos] == e)
    && (match s.cons
        case Done => true
        case Seeking(_, cur) => cur == s.readPos
        case Found(_, cur) => cur == s.readPos && s.r < w
        case Taken(cur) => s.r > 0 && cur == Slot(s.r - 1, n))
    && (forall k: nat {:trigger Kept(s, k)} :: First(s) <= k < w ==> Kept(s, k))
    && 0 <= First(s) <= w && s.popped == s.log[..First(s)]
  }

  lemma InitInv<T>(records: seq<T>)
    requires |records| >= 2
    ensures Inv(Init(records))
  {
  }

  lemma LoadedInv<T>(s: State<T>)
    requires Inv(s) && s.prod.Loaded?
    ensures InBounds(s) && Inv(ProducerStep(s))
  {
    var s', n, w := ProducerStep(s), |s.records|, |s.log|;
    if w == s.r + n - 1 { SlotShift(s.r, n - 1, n); }
    forall k: nat | First(s') <= k < w ensures Kept(s', k) { assert Kept(s, k); }
  }

  lemma RoomInv<T>(s: State<T>)
    requires Inv(s) && s.prod.Room?
    ensures InBounds(s) && Inv(ProducerStep(s))
  {
    var s', n, w := ProducerStep(s), |s.records|, |s.log|;
    forall k: nat | First(s') <= k < w ensures Kept(s', k) {
      assert Kept(s, k);
      SlotsDiffer(k, w, n);
    }
  }

  lemma FilledInv<T>(s: State<T>)
    requires Inv(s) && s.prod.Filled?
    ensures InBounds(s) && Inv(ProducerStep(s))
  {
    var s', w := ProducerStep(s), |s.log|;
    forall k: nat | First(s') <= k < |s'.log| ensures Kept(s', k) { if k < w { assert Kept(s, k); } }
    assert s'.log[..First(s')] == s.log[..First(s)];
  }

  lemma ProducerInv<T>(s: State<T>)
    requires Inv(s) && !s.prod.Free?
    ensures InBounds(s) && Inv(ProducerStep(s))
  {
    match s.prod
    case Loaded(_, _) => LoadedInv(s);
    case Room(_, _, _) => RoomInv(s);
    case Filled(_, _) => FilledInv(s);
  }

  lemma SeekingInv<T>(s: State<T>)
    requires Inv(s) && s.cons.Seeking?
    ensures InBounds(s) && Inv(ConsumerStep(s))
  {
    var s', n, w := ConsumerStep(s), |s.records|, |s.log|;
    forall k: nat | First(s') <= k < w ensures Kept(s', k) { assert Kept(s, k); }
    if s.r < w { SlotsDiffer(s.r, w, n); }
  }

  lemma FoundInv<T>(s: State<T>)
    requires Inv(s) && s.cons.Found?
    ensures InBounds(s) && Inv(ConsumerStep(s))
  {
    var s', w := ConsumerStep(s), |s.log|;
    forall k: nat | First(s') <= k < w ensures Kept(s', k) { assert Kept(s, k); }
  }

  lemma TakenInv<T>(s: State<T>)
    requires Inv(s) && s.cons.Taken?
    ensures InBounds(s) && Inv(ConsumerStep(s))
  {
    var s', w := ConsumerStep(s), |s.log|;
    forall k: nat | First(s') <= k < w ensures Kept(s', k) { assert Kept(s, k); }
    assert Kept(s, s.r - 1) && s'.log[..s.r] == s.log[..s.r - 1] + [s.log[s.r - 1]];
  }

  lemma ConsumerInv<T>(s: State<T>)
    requires Inv(s) && !s.cons.Done?
    ensures InBounds(s) && Inv(ConsumerStep(s))
  {
    match s.cons
    case Seeking(_, _) => SeekingInv(s);
    case Found(_, _) => FoundInv(s);
    case Taken(_) => TakenInv(s);
  }

  lemma StepInv<T>(s: State<T>, a: Action<T>)
    requires Inv(s) && Enabled(s, a)
    ensures InBounds(s) && Inv(Step(s, a))
  {
    match a
    case Produce => ProducerInv(s);
    case Consume => ConsumerInv(s);
    case _ => forall k: nat | First(s) <= k < |s.log| ensures Kept(Step(s, a), k) { assert Kept(s, k); }
  }

  // The queue that the ring stands for.
  ghost function Queue<T>(s: State<T>): (q: seq<T>)
    requires Inv(s)
    ensures |q| <= |s.records| - 1
  {
    s.log[s.r..]
  }

  // Each step does nothing to the queue, or is the store to write_pos and appends the element pushed, or
  // is the store to read_pos and takes the oldest one.
  lemma Refines<T>(s: State<T>, a: Action<T>)
    requires Inv(s) && Enabled(s, a)
    ensures InBounds(s) && Inv(Step(s, a))
    ensures Queue(Step(s, a)) ==
      if a.Produce? && s.prod.Filled? then Queue(s) + [s.prod.e]
      else if a.Consume? && s.cons.Found? && !s.cons.peek then Queue(s)[1..]
      else Queue(s)
  {
    StepInv(s, a);
  }

  // The producer fails exactly when it finds the queue holding capacity - 1 elements ...
  lemma PushFails<T>(s: State<T>)
    requires Inv(s) && s.prod.Loaded?
    ensures InBounds(s)
    ensures ProducerStep(s).prod.Free? <==> |Queue(s)| == |s.records| - 1
    ensures |Queue(s)| == |s.records| - 1 ==> !ProducerStep(s).pushed
  {
    var n, w := |s.records|, |s.log|;
    assert Slot(w + 1, n) == Bump(s.writePos, n);
    SlotShift(s.r, n - 1, n);
    if w + 1 < s.r + n { SlotsDiffer(s.r, w + 1, n); }
  }

  // ... and reports success exactly when it has appended its element ...
  lemma PushEnds<T>(s: State<T>)
    requires Inv(s) && !s.prod.Free? && InBounds(s) && ProducerStep(s).prod.Free?
    ensures Inv(ProducerStep(s))
    ensures var s' := ProducerStep(s); Queue(s') == if s'.pushed then Queue(s) + [s.prod.e] else Queue(s)
    ensures ProducerStep(s).pushed <==> s.prod.Filled?
  {
    ProducerInv(s);
    if s.prod.Loaded? { PushFails(s); }
  }

  // ... and the consumer exactly when it finds the queue empty.
  lemma PopFails<T>(s: State<T>)
    requires Inv(s) && s.cons.Seeking?
    ensures InBounds(s)
    ensures ConsumerStep(s).cons.Done? <==> Queue(s) == []
    ensures Queue(s) == [] <==> ConsumerStep(s).cons.Done? && ConsumerStep(s).outcome == Nothing
  {
    if s.r < |s.log| { SlotsDiffer(s.r, |s.log|, |s.records|); }
  }

  // Although pop has given its slot up already, the producer does not write where the consumer reads.
  lemma NoOverwrite<T>(s: State<T>)
    requires Inv(s) && s.prod.Room? && (s.cons.Found? || s.cons.Taken?)
    ensures s.prod.cur != s.cons.cur
  {
    SlotsDiffer(if s.cons.Taken? then s.r - 1 else s.r, |s.log|, |s.records|);
  }

  // What pop and peek return is the oldest element at the time; pop reads it one step later.
  lemma Oldest<T>(s: State<T>)
    requires Inv(s) && s.cons.Found? && s.log != []
    ensures InBounds(s) && Queue(s) != []
    ensures s.cons.peek ==> ConsumerStep(s).outcome == Got(Queue(s)[0])
    ensures !s.cons.peek ==> Owed(ConsumerStep(s)) == [Queue(s)[0]]
  {
    assert Kept(s, s.r);
  }

  // The element that pop has taken but not read yet stays in its slot until it is read.
  ghost function Owed<T>(s: State<T>): seq<T> {
    if s.cons.Taken? && 0 < s.r <= |s.log| then [s.log[s.r - 1]] else []
  }

  lemma OwedIsRead<T>(s: State<T>)
    requires Inv(s) && s.cons.Taken?
    ensures InBounds(s) && Owed(s) == [s.records[s.cons.cur]]
    ensures ConsumerStep(s).outcome == Got(Owed(s)[0]) && ConsumerStep(s).popped == s.popped + Owed(s)
  {
    assert Kept(s, s.r - 1);
  }

  // Whole calls, while no other thread runs.

  ghost function Consumed<T>(s: State<T>): (s': State<T>)
    requires Inv(s)
    ensures Inv(s') && s'.cons.Done?
    decreases match s.cons case Done => 0 case Taken(_) => 1 case Found(_, _) => 2 case Seeking(_, _) => 3
  {
    if s.cons.Done? then s else ConsumerInv(s); Consumed(ConsumerStep(s))
  }

  ghost function Produced<T>(s: State<T>): (s': State<T>)
    requires Inv(s)
    ensures Inv(s') && s'.prod.Free?
    decreases match s.prod case Free => 0 case Filled(_, _) => 1 case Room(_, _, _) => 2 case Loaded(_, _) => 3
  {
    if s.prod.Free? then s else ProducerInv(s); Produced(ProducerStep(s))
  }

  // A call of push appends its element, unless the ring is full.
  lemma PushCall<T>(s: State<T>, e: T)
    requires Inv(s) && s.prod.Free?
    ensures InBounds(s) && Inv(Step(s, Push(e)))
    ensures var s' := Produced(Step(s, Push(e)));
      && s'.cons == s.cons && s'.outcome == s.outcome && s'.popped == s.popped
      && if |Queue(s)| == |s.records| - 1 then !s'.pushed && Queue(s') == Queue(s)
         else s'.pushed && Queue(s') == Queue(s) + [e]
  {
    StepInv(s, Push(e));
    var s1 := Step(s, Push(e));
    PushFails(s1);
    ProducerInv(s1);
    var s2 := ProducerStep(s1);
    if !s2.prod.Free? {
      ProducerInv(s2);
      var s3 := ProducerStep(s2);
      ProducerInv(s3);
      var s4 := ProducerStep(s3);
      assert Produced(s4) == s4 && Produced(s3) == s4 && Produced(s2) == s4;
    }
  }

  // A call of pop takes and returns the oldest element, or returns NULL if there is none.
  lemma PopCall<T>(s: State<T>)
    requires Inv(s) && s.cons.Done?
    ensures InBounds(s) && Inv(Step(s, Pop))
    ensures var s' := Consumed(Step(s, Pop));
      && s'.prod == s.prod && s'.pushed == s.pushed
      && if Queue(s) == [] then s'.outcome == Nothing && Queue(s') == [] && s'.popped == s.popped
         else s'.outcome == Got(Queue(s)[0]) && Queue(s') == Queue(s)[1..] && s'.popped == s.popped + [Queue(s)[0]]
  {
    StepInv(s, Pop);
    var s1 := Step(s, Pop);
    PopFails(s1);
    ConsumerInv(s1);
    var s2 := ConsumerStep(s1);
    if !s2.cons.Done? {
      ConsumerInv(s2);
      var s3 := ConsumerStep(s2);
      OwedIsRead(s3);
      ConsumerInv(s3);
      var s4 := ConsumerStep(s3);
      assert Consumed(s4) == s4 && Consumed(s3) == s4 && Consumed(s2) == s4;
    }
  }

  // A call of peek returns the same and takes nothing.
  lemma PeekCall<T>(s: State<T>)
    requires Inv(s) && s.cons.Done?
    ensures InBounds(s) && Inv(Step(s, Peek))
    ensures var s' := Consumed(Step(s, Peek));
      s' == s.(outcome := if Queue(s) == [] then Nothing else Got(Queue(s)[0]))
  {
    StepInv(s, Peek);
    var s1 := Step(s, Peek);
    PopFails(s1);
    ConsumerInv(s1);
    var s2 := ConsumerStep(s1);
    if !s2.cons.Done? {
      Oldest(s2);
      ConsumerInv(s2);
      var s3 := ConsumerStep(s2);
      assert Consumed(s3) == s3 && Consumed(s2) == s3;
    }
  }

  // Whole runs.

  ghost predicate Runs<T>(s: State<T>, acts: seq<Action<T>>)
    decreases |acts|
  {
    acts == [] || (Enabled(s, acts[0]) && InBounds(s) && Runs(Step(s, acts[0]), acts[1..]))
  }

  ghost function Exec<T>(s: State<T>, acts: seq<Action<T>>): State<T>
    requires Runs(s, acts)
    decreases |acts|
  {
    if acts == [] then s else Exec(Step(s, acts[0]), acts[1..])
  }

  // A call of pop, and not of peek, is under way.
  predicate Popping(c: Consumer) {
    !c.Done? && (c.Taken? || !c.peek)
  }

  // The element for which push returns 0 with this step: a call ends when the producer is free again,
  // and pushed is its answer.
  ghost function Acceptance<T>(s: State<T>, a: Action<T>): seq<T>
    requires Enabled(s, a) && InBounds(s)
  {
    var s' := Step(s, a);
    if a.Produce? && s'.prod.Free? && s'.pushed then [s.prod.e] else []
  }

  // The element that pop returns with this step: a call ends when the consumer is done, and outcome is
  // its answer.
  ghost function Return<T>(s: State<T>, a: Action<T>): seq<T>
    requires Enabled(s, a) && InBounds(s)
  {
    var s' := Step(s, a);
    if a.Consume? && Popping(s.cons) && s'.cons.Done? && s'.outcome.Got? then [s'.outcome.v] else []
  }

  lemma StepBooks<T>(s: State<T>, a: Action<T>)
    requires Enabled(s, a) && InBounds(s)
    ensures Step(s, a).log == s.log + Acceptance(s, a) && Step(s, a).popped == s.popped + Return(s, a)
  {
    hide Bump;
  }

  // The elements for which push returned 0, in that order.
  ghost function Accepted<T>(s: State<T>, acts: seq<Action<T>>): seq<T>
    requires Runs(s, acts)
    decreases |acts|
  {
    if acts == [] then []
    else Acceptance(s, acts[0]) + Accepted(Step(s, acts[0]), acts[1..])
  }

  // The elements that pop returned, in that order.
  ghost function Returned<T>(s: State<T>, acts: seq<Action<T>>): seq<T>
    requires Runs(s, acts)
    decreases |acts|
  {
    if acts == [] then []
    else Return(s, acts[0]) + Returned(Step(s, acts[0]), acts[1..])
  }

  lemma {:induction false} RunInv<T>(s: State<T>, acts: seq<Action<T>>)
    requires Inv(s) && Runs(s, acts)
    ensures Inv(Exec(s, acts))
    decreases |acts|
  {
    if acts != [] {
      StepInv(s, acts[0]);
      RunInv(Step(s, acts[0]), acts[1..]);
    }
  }

  lemma {:induction false} RunBooks<T>(s: State<T>, acts: seq<Action<T>>)
    requires Runs(s, acts)
    ensures Exec(s, acts).log == s.log + Accepted(s, acts)
    ensures Exec(s, acts).popped == s.popped + Returned(s, acts)
    decreases |acts|
  {
    hide Step, Acceptance, Return;
    if acts != [] {
      var a, s' := acts[0], Step(s, acts[0]);
      RunBooks(s', acts[1..]);
      StepBooks(s, a);
      Regroup(s.log, Acceptance(s, a), Accepted(s', acts[1..]));
      Regroup(s.popped, Return(s, a), Returned(s', acts[1..]));
    }
  }

  // Main theorem: under every interleaving, what pop has returned, what it is about to return and what
  // is queued is, in this order, what push has accepted; never more than capacity - 1 are queued.
  lemma Fifo<T>(records: seq<T>, acts: seq<Action<T>>)
    requires |records| >= 2 && Runs(Init(records), acts)
    ensures var s := Exec(Init(records), acts);
      Inv(s) && Accepted(Init(records), acts) == Returned(Init(records), acts) + Owed(s) + Queue(s)
  {
    InitInv(records);
    RunInv(Init(records), acts);
    RunBooks(Init(records), acts);
    var s := Exec(Init(records), acts);
    assert s.log == s.log[..First(s)] + Owed(s) + s.log[s.r..];
    assert [] + Accepted(Init(records), acts) == Accepted(Init(records), acts);
    assert [] + Returned(Init(records), acts) == Returned(Init(records), acts);
  }

  // spscq_is_empty, spscq_is_full and spscq_size, while no other thread runs
  predicate IsEmpty<T>(s: State<T>) { s.readPos == s.writePos }

  predicate IsFull<T>(s: State<T>) { Bump(s.writePos, |s.records|) == s.readPos }

  function Size<T>(s: State<T>): int {
    var ret := s.writePos - s.readPos;
    if ret < 0 then ret + |s.records| else ret
  }

  lemma Tests<T>(s: State<T>)
    requires Inv(s)
    ensures IsEmpty(s) <==> Queue(s) == []
    ensures IsFull(s) <==> |Queue(s)| == |s.records| - 1
    ensures Size(s) == |Queue(s)|
  {
    var n, w := |s.records|, |s.log|;
    SlotShift(s.r, w - s.r, n);
    if w + 1 < s.r + n { SlotShift(s.r, w + 1 - s.r, n); } else { SlotShift(s.r, n - 1, n); }
  }
}
