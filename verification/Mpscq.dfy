// The multi-producer single-consumer queue of mpscq.c, as a transition system: every atomic load,
// store and exchange is one step, and the steps of any number of producers interleave with those of
// the consumer in any way.
module Mpscq {
  import opened Wrappers

  datatype Node = Sentinel | User(id: nat)

  datatype Ptr = Null | To(node: Node)

  // Where a producer is in mpscq_push: before it, after clearing n->next, or after the exchange that
  // returned prev.  The number at is bookkeeping: the place of prev in the log.
  datatype Producer = Idle | Cleared(n: Node) | Exchanged(n: Node, prev: Node, at: int)

  // Where the consumer is in mpscq_pop_and_check_end, with its local variable tail: before it, before
  // the second load of tail->next, before the load of head, at the three steps of pushing the
  // sentinel, before the last load of tail->next.
  datatype Consumer =
    | Ready
    | Reload(tail: Node)
    | LoadHead(tail: Node)
    | PushClear(tail: Node)
    | PushXchg(tail: Node)
    | PushLink(tail: Node, prev: Node, at: int)
    | Final(tail: Node)

  // What a call of pop returned: a node, or NULL with *empty.
  datatype Outcome = NoCall | Popped(n: Node) | Nothing(empty: bool)

  // The fields head to outcome are those of the program.  The others keep books: the nodes handed to
  // push and not yet returned by pop, the order of all exchanges on head, the place of tail in it,
  // and the nodes returned so far.
  datatype State = State(head: Node, tail: Node, next: map<Node, Ptr>, prod: map<nat, Producer>,
                         cons: Consumer, outcome: Outcome,
                         busy: set<Node>, log: seq<Node>, t: nat, popped: seq<Node>)

  // One step of producer p, which pushes n, or the next step of the consumer.
  datatype Action = Begin(p: nat, n: Node) | Xchg(p: nat) | Link(p: nat) | Pop

  function Next(s: State, n: Node): Ptr {
    if n in s.next then s.next[n] else Null
  }

  function Prod(s: State, p: nat): Producer {
    if p in s.prod then s.prod[p] else Idle
  }

  // mpscq_init
  function Init(): State {
    State(Sentinel, Sentinel, map[Sentinel := Null], map[], Ready, NoCall, {}, [Sentinel], 0, [])
  }

  // A caller may push a node that is not in the queue already.
  predicate Enabled(s: State, a: Action) {
    match a
    case Begin(p, n) => Prod(s, p) == Idle && n != Sentinel && n !in s.busy
    case Xchg(p) => Prod(s, p).Cleared?
    case Link(p) => Prod(s, p).Exchanged?
    case Pop => true
  }

  function Step(s: State, a: Action): State
    requires Enabled(s, a)
  {
    match a
    case Begin(p, n) => s.(next := s.next[n := Null], prod := s.prod[p := Cleared(n)], busy := s.busy + {n})
    case Xchg(p) =>
      var n := Prod(s, p).n;
      s.(head := n, prod := s.prod[p := Exchanged(n, s.head, |s.log| - 1)], log := s.log + [n])
    case Link(p) =>
      var q := Prod(s, p);
      s.(next := s.next[q.prev := To(q.n)], prod := s.prod[p := Idle])
    case Pop => PopStep(s)
  }

  // q->tail = next; return tail;
  function Take(s: State, tail: Node, next: Node): State {
    s.(tail := next, cons := Ready, outcome := Popped(tail), t := s.t + 1, popped := s.popped + [tail],
       busy := s.busy - {tail})
  }

  // return NULL;
  function GiveUp(s: State, empty: bool): State {
    s.(cons := Ready, outcome := Nothing(empty))
  }

  function PopStep(s: State): State {
    match s.cons
    case Ready =>
      var next := Next(s, s.tail);
      if s.tail == Sentinel then
        if next == Null then GiveUp(s, true)
        else s.(tail := next.node, t := s.t + 1, cons := Reload(next.node))
      else if next != Null then Take(s, s.tail, next.node)
      else s.(cons := LoadHead(s.tail))
    case Reload(tail) =>
      var next := Next(s, tail);
      if next != Null then Take(s, tail, next.node) else s.(cons := LoadHead(tail))
    case LoadHead(tail) =>
      if tail != s.head then GiveUp(s, false) else s.(cons := PushClear(tail))
    case PushClear(tail) => s.(next := s.next[Sentinel := Null], cons := PushXchg(tail))
    case PushXchg(tail) => s.(head := Sentinel, cons := PushLink(tail, s.head, |s.log| - 1), log := s.log + [Sentinel])
    case PushLink(tail, prev, _) => s.(next := s.next[prev := To(Sentinel)], cons := Final(tail))
    case Final(tail) =>
      var next := Next(s, tail);
      if next != Null then Take(s, tail, next.node) else GiveUp(s, false)
  }

  // The invariant.

  // The nodes from tail to head, in the order of the exchanges, are the queue; they are distinct.
  ghost predicate Window(s: State) {
    && s.t < |s.log| && s.log[s.t] == s.tail && s.log[|s.log| - 1] == s.head
    && (forall i, j :: s.t <= i < j < |s.log| ==> s.log[i] != s.log[j])
    && Next(s, s.head) == Null
    && (forall i :: s.t <= i < |s.log| && s.log[i] != Sentinel ==> s.log[i] in s.busy)
  }

  // Each but the last is linked to the one after it, or somebody is about to link it.
  ghost predicate Linked(s: State)
    requires Window(s)
  {
    forall i: nat {:trigger Joined(s, i)} :: s.t <= i && i + 1 < |s.log| ==> Joined(s, i)
  }

  ghost predicate Joined(s: State, i: nat)
    requires i + 1 < |s.log|
  {
    Next(s, s.log[i]) == To(s.log[i + 1]) || (Next(s, s.log[i]) == Null && Pending(s, i))
  }

  ghost predicate Pending(s: State, i: nat)
    requires i + 1 < |s.log|
  {
    || (exists p :: Prod(s, p) == Exchanged(s.log[i + 1], s.log[i], i))
    || (s.cons.PushLink? && s.cons.at == i)
  }

  // What a producer holds is its own.
  ghost predicate Holds(s: State, p: nat)
    requires Window(s)
  {
    var q := Prod(s, p);
    && (!q.Idle? ==> q.n != Sentinel && q.n in s.busy)
    && (q.Cleared? ==> Next(s, q.n) == Null && forall i :: s.t <= i < |s.log| ==> s.log[i] != q.n)
    && (q.Exchanged? ==> LinkReady(s, q.n, q.prev, q.at))
  }

  ghost predicate LinkReady(s: State, n: Node, prev: Node, at: int)
    requires Window(s)
  {
    s.t <= at < |s.log| - 1 && s.log[at] == prev && s.log[at + 1] == n && Next(s, prev) == Null
  }

  ghost predicate Apart(s: State, p: nat, q: nat) {
    p != q && !Prod(s, p).Idle? && !Prod(s, q).Idle? ==> Prod(s, p).n != Prod(s, q).n
  }

  ghost predicate Producers(s: State)
    requires Window(s)
  {
    && (forall p {:trigger Holds(s, p)} :: Holds(s, p))
    && (forall p, q {:trigger Apart(s, p, q)} :: Apart(s, p, q))
  }

  ghost predicate NoSentinel(s: State) {
    forall i :: s.t <= i < |s.log| ==> s.log[i] != Sentinel
  }

  ghost predicate ConsumerOk(s: State)
    requires Window(s)
  {
    match s.cons
    case Ready => true
    case Reload(tail) => tail == s.tail && tail != Sentinel
    case LoadHead(tail) => tail == s.tail && tail != Sentinel
    case PushClear(tail) => tail == s.tail && NoSentinel(s)
    case PushXchg(tail) => tail == s.tail && NoSentinel(s) && Next(s, Sentinel) == Null
    case PushLink(tail, prev, at) => tail == s.tail && tail != Sentinel && LinkReady(s, Sentinel, prev, at)
    case Final(tail) => tail == s.tail && tail != Sentinel
  }

  // The nodes of a sequence that are not the sentinel.
  function Users(ns: seq<Node>): seq<Node> {
    if ns == [] then []
    else Users(ns[..|ns| - 1]) + (if ns[|ns| - 1] == Sentinel then [] else [ns[|ns| - 1]])
  }

  ghost predicate Inv(s: State) {
    Window(s) && Linked(s) && Producers(s) && ConsumerOk(s) && s.popped == Users(s.log[..s.t])
  }

  lemma {:induction false} UsersConcat(a: seq<Node>, b: seq<Node>)
    ensures Users(a + b) == Users(a) + Users(b)
  {
    if b == [] {
      assert a + b == a;
    } else {
      UsersConcat(a, b[..|b| - 1]);
      assert (a + b)[..|a + b| - 1] == a + b[..|b| - 1];
    }
  }

  lemma InitInv()
    ensures Inv(Init())
  {
    var s := Init();
    assert s.log[..s.t] == [];
    forall p ensures Holds(s, p) {}
    forall p, q ensures Apart(s, p, q) {}
  }

  // A pending link stays pending if its producer does not move.
  lemma PendingKept(s: State, s': State, i: nat, p: nat)
    requires i + 1 < |s.log| <= |s'.log| && Pending(s, i) && s'.log[i] == s.log[i] && s'.log[i + 1] == s.log[i + 1]
    requires forall q {:trigger Prod(s', q)} :: q != p ==> Prod(s', q) == Prod(s, q)
    requires Prod(s, p) == Exchanged(s.log[i + 1], s.log[i], i) ==> Prod(s', p) == Prod(s, p)
    requires s'.cons == s.cons || !s.cons.PushLink? || s.cons.at != i
    ensures Pending(s', i)
  {
    if !(s.cons.PushLink? && s.cons.at == i) {
      var q :| Prod(s, q) == Exchanged(s.log[i + 1], s.log[i], i);
      assert Prod(s', q) == Prod(s, q);
    }
  }

  lemma BeginInv(s: State, p: nat, n: Node)
    requires Inv(s) && Enabled(s, Begin(p, n))
    ensures Inv(Step(s, Begin(p, n)))
  {
    var s' := Step(s, Begin(p, n));
    assert forall m :: m != n ==> Next(s', m) == Next(s, m);
    assert forall q {:trigger Prod(s', q)} :: q != p ==> Prod(s', q) == Prod(s, q);
    assert forall i :: s.t <= i < |s.log| ==> s.log[i] != n;
    assert Window(s');
    forall i: nat | s.t <= i && i + 1 < |s.log| ensures Joined(s', i) {
      assert Joined(s, i);
      if Pending(s, i) { PendingKept(s, s', i, p); }
    }
    forall q ensures Holds(s', q) { assert Holds(s, q); }
    forall q, r ensures Apart(s', q, r) { assert Holds(s, q) && Holds(s, r) && Apart(s, q, r); }
  }

  lemma XchgInv(s: State, p: nat)
    requires Inv(s) && Enabled(s, Xchg(p))
    ensures Inv(Step(s, Xchg(p)))
  {
    hide Queue;
    var s' := Step(s, Xchg(p));
    var n := Prod(s, p).n;
    assert Holds(s, p);
    assert forall m :: Next(s', m) == Next(s, m);
    assert forall q {:trigger Prod(s', q)} :: q != p ==> Prod(s', q) == Prod(s, q);
    assert Window(s');
    forall i: nat | s.t <= i && i + 1 < |s'.log| ensures Joined(s', i) {
      if i == |s.log| - 1 {
        assert Prod(s', p) == Exchanged(s'.log[i + 1], s'.log[i], i);
      } else {
        assert Joined(s, i);
        if Pending(s, i) { PendingKept(s, s', i, p); }
      }
    }
    forall q ensures Holds(s', q) { assert Holds(s, q) && Apart(s, p, q); }
    forall q, r ensures Apart(s', q, r) { assert Apart(s, q, r); }
    assert s'.log[..s.t] == s.log[..s.t];
  }

  lemma LinkInv(s: State, p: nat)
    requires Inv(s) && Enabled(s, Link(p))
    ensures Inv(Step(s, Link(p)))
  {
    var s' := Step(s, Link(p));
    var m := Prod(s, p);
    assert Holds(s, p);
    assert forall x :: x != m.prev ==> Next(s', x) == Next(s, x);
    assert forall q {:trigger Prod(s', q)} :: q != p ==> Prod(s', q) == Prod(s, q);
    assert Window(s');
    forall i: nat | s.t <= i && i + 1 < |s.log| ensures Joined(s', i) {
      assert Joined(s, i);
      if i != m.at && Pending(s, i) { PendingKept(s, s', i, p); }
    }
    forall q ensures Holds(s', q) { assert Holds(s, q) && Apart(s, p, q); }
    forall q, r ensures Apart(s', q, r) { assert Apart(s, q, r); }
  }

  // A link that is there leads to the second node of the queue.
  lemma SecondNode(s: State)
    requires Window(s) && Linked(s) && Next(s, s.tail) != Null
    ensures s.t + 1 < |s.log| && Next(s, s.tail) == To(s.log[s.t + 1])
  {
    assert Joined(s, s.t);
  }

  // Moving tail on to the second node; the consumer is not in the middle of a push.
  lemma AdvanceInv(s: State, s': State)
    requires Inv(s) && !s.cons.PushLink? && Next(s, s.tail) != Null
    requires s'.head == s.head && s'.next == s.next && s'.prod == s.prod && s'.log == s.log
    requires s'.t == s.t + 1 && To(s'.tail) == Next(s, s.tail) && s'.cons in {Ready, Reload(s'.tail)}
    requires if s.tail == Sentinel then s'.busy == s.busy && s'.popped == s.popped
             else s'.busy == s.busy - {s.tail} && s'.popped == s.popped + [s.tail] && s'.cons == Ready
    ensures Inv(s')
  {
    SecondNode(s);
    assert forall m :: Next(s', m) == Next(s, m);
    assert forall q {:trigger Prod(s', q)} :: Prod(s', q) == Prod(s, q);
    assert Window(s');
    forall i: nat | s'.t <= i && i + 1 < |s'.log| ensures Joined(s', i) {
      assert Joined(s, i);
      if Pending(s, i) { PendingKept(s, s', i, 0); }
    }
    forall q ensures Holds(s', q) { assert Holds(s, q); }
    forall q, r ensures Apart(s', q, r) { assert Apart(s, q, r); }
    assert s'.log[..s'.t][..s.t] == s.log[..s.t];
  }

  // A step of the consumer that changes no more than its own state.
  lemma IdleStepInv(s: State, s': State)
    requires Inv(s) && !s.cons.PushLink? && s' == s.(cons := s'.cons, outcome := s'.outcome) && ConsumerOk(s')
    ensures Inv(s')
  {
    assert forall m :: Next(s', m) == Next(s, m);
    assert forall q {:trigger Prod(s', q)} :: Prod(s', q) == Prod(s, q);
    forall i: nat | s'.t <= i && i + 1 < |s'.log| ensures Joined(s', i) {
      assert Joined(s, i);
      if Pending(s, i) { PendingKept(s, s', i, 0); }
    }
    forall q ensures Holds(s', q) { assert Holds(s, q); }
    forall q, r ensures Apart(s', q, r) { assert Apart(s, q, r); }
  }

  lemma PushClearInv(s: State)
    requires Inv(s) && s.cons.PushClear?
    ensures Inv(PopStep(s))
  {
    var s' := PopStep(s);
    assert forall m :: m != Sentinel ==> Next(s', m) == Next(s, m);
    assert forall q {:trigger Prod(s', q)} :: Prod(s', q) == Prod(s, q);
    assert Window(s');
    forall i: nat | s'.t <= i && i + 1 < |s'.log| ensures Joined(s', i) {
      assert Joined(s, i);
      if Pending(s, i) { PendingKept(s, s', i, 0); }
    }
    forall q ensures Holds(s', q) { assert Holds(s, q); }
    forall q, r ensures Apart(s', q, r) { assert Apart(s, q, r); }
  }

  lemma PushXchgInv(s: State)
    requires Inv(s) && s.cons.PushXchg?
    ensures Inv(PopStep(s))
  {
    var s' := PopStep(s);
    assert forall m :: Next(s', m) == Next(s, m);
    assert forall q {:trigger Prod(s', q)} :: Prod(s', q) == Prod(s, q);
    assert Window(s');
    forall i: nat | s'.t <= i && i + 1 < |s'.log| ensures Joined(s', i) {
      if i < |s.log| - 1 {
        assert Joined(s, i);
        if Pending(s, i) { PendingKept(s, s', i, 0); }
      }
    }
    forall q ensures Holds(s', q) { assert Holds(s, q); }
    forall q, r ensures Apart(s', q, r) { assert Apart(s, q, r); }
    assert s'.log[..s.t] == s.log[..s.t];
    assert s'.log[s.t] != Sentinel;
  }

  lemma PushLinkInv(s: State)
    requires Inv(s) && s.cons.PushLink?
    ensures Inv(PopStep(s))
  {
    var s' := PopStep(s);
    assert forall x :: x != s.cons.prev ==> Next(s', x) == Next(s, x);
    assert forall q {:trigger Prod(s', q)} :: Prod(s', q) == Prod(s, q);
    assert Window(s');
    forall i: nat | s'.t <= i && i + 1 < |s'.log| ensures Joined(s', i) {
      assert Joined(s, i);
      if i != s.cons.at && Pending(s, i) { PendingKept(s, s', i, 0); }
    }
    forall q ensures Holds(s', q) { assert Holds(s, q); }
    forall q, r ensures Apart(s', q, r) { assert Apart(s, q, r); }
  }

  lemma PopInv(s: State)
    requires Inv(s)
    ensures Inv(PopStep(s))
  {
    var s' := PopStep(s);
    match s.cons
    case PushClear(_) => PushClearInv(s);
    case PushXchg(_) => PushXchgInv(s);
    case PushLink(_, _, _) => PushLinkInv(s);
    case LoadHead(_) => IdleStepInv(s, s');
    case _ => if Next(s, s.tail) != Null { AdvanceInv(s, s'); } else { IdleStepInv(s, s'); }
  }

  lemma StepInv(s: State, a: Action)
    requires Inv(s) && Enabled(s, a)
    ensures Inv(Step(s, a))
  {
    match a
    case Begin(p, n) => BeginInv(s, p, n);
    case Xchg(p) => XchgInv(s, p);
    case Link(p) => LinkInv(s, p);
    case Pop => PopInv(s);
  }

  // Whole runs.

  ghost predicate Runs(s: State, acts: seq<Action>)
    decreases |acts|
  {
    acts == [] || (Enabled(s, acts[0]) && Runs(Step(s, acts[0]), acts[1..]))
  }

  ghost function Exec(s: State, acts: seq<Action>): State
    requires Runs(s, acts)
    decreases |acts|
  {
    if acts == [] then s else Exec(Step(s, acts[0]), acts[1..])
  }

  // The nodes of a run in the order in which their producers' exchanges took place.
  ghost function Pushed(s: State, acts: seq<Action>): seq<Node>
    requires Runs(s, acts)
    decreases |acts|
  {
    if acts == [] then []
    else (if acts[0].Xchg? then [Prod(s, acts[0].p).n] else []) + Pushed(Step(s, acts[0]), acts[1..])
  }

  // The node returned if the next step of the consumer ends the call with one.
  ghost function Return(s: State): seq<Node> {
    var s' := PopStep(s);
    if s'.cons == Ready && s'.outcome.Popped? then [s'.outcome.n] else []
  }

  // The nodes of a run that pop returned, in that order.
  ghost function Returned(s: State, acts: seq<Action>): seq<Node>
    requires Runs(s, acts)
    decreases |acts|
  {
    if acts == [] then []
    else (if acts[0].Pop? then Return(s) else []) + Returned(Step(s, acts[0]), acts[1..])
  }

  // The queue: the nodes from tail to head but for the sentinel.
  ghost function Queue(s: State): seq<Node>
    requires s.t <= |s.log|
  {
    Users(s.log[s.t..])
  }

  lemma StepBooks(s: State, a: Action)
    requires Inv(s) && Enabled(s, a)
    ensures Step(s, a).popped == s.popped + (if a.Pop? then Return(s) else [])
    ensures Users(Step(s, a).log) == Users(s.log) + (if a.Xchg? then [Prod(s, a.p).n] else [])
  {
    match a
    case Xchg(p) =>
      assert Holds(s, p);
      assert Step(s, a).log[..|s.log|] == s.log;
    case Pop => PopBooks(s);
    case _ =>
  }

  lemma PopBooks(s: State)
    ensures PopStep(s).popped == s.popped + Return(s) && Users(PopStep(s).log) == Users(s.log)
  {
    hide Next;
    if s.cons.PushXchg? { assert PopStep(s).log[..|s.log|] == s.log; }
  }

  lemma {:induction false} RunInv(s: State, acts: seq<Action>)
    requires Inv(s) && Runs(s, acts)
    ensures Inv(Exec(s, acts))
    decreases |acts|
  {
    if acts != [] {
      StepInv(s, acts[0]);
      RunInv(Step(s, acts[0]), acts[1..]);
    }
  }

  lemma {:induction false} RunBooks(s: State, acts: seq<Action>)
    requires Inv(s) && Runs(s, acts)
    ensures Exec(s, acts).popped == s.popped + Returned(s, acts)
    ensures Users(Exec(s, acts).log) == Users(s.log) + Pushed(s, acts)
    decreases |acts|
  {
    if acts != [] {
      var a, s' := acts[0], Step(s, acts[0]);
      StepInv(s, a);
      StepBooks(s, a);
      RunBooks(s', acts[1..]);
      Regroup(s.popped, if a.Pop? then Return(s) else [], Returned(s', acts[1..]));
      Regroup(Users(s.log), if a.Xchg? then [Prod(s, a.p).n] else [], Pushed(s', acts[1..]));
    }
  }

  // Main theorem: under every interleaving, what pop has returned and what is still queued is, in
  // this order, what the producers have exchanged.
  lemma Fifo(acts: seq<Action>)
    requires Runs(Init(), acts)
    ensures var s := Exec(Init(), acts); Inv(s) && Pushed(Init(), acts) == Returned(Init(), acts) + Queue(s)
  {
    InitInv();
    RunInv(Init(), acts);
    RunBooks(Init(), acts);
    UsersOne(Sentinel);
    PoppedAndQueued(Exec(Init(), acts));
    assert [] + Pushed(Init(), acts) == Pushed(Init(), acts) && [] + Returned(Init(), acts) == Returned(Init(), acts);
  }

  lemma PoppedAndQueued(s: State)
    requires Inv(s)
    ensures Users(s.log) == s.popped + Queue(s)
  {
    UsersConcat(s.log[..s.t], s.log[s.t..]);
    assert s.log[..s.t] + s.log[s.t..] == s.log;
  }

  // A node that no push has been begun for since pop returned it, if ever, is out of reach: nobody
  // holds it, nothing in the queue leads to it, and no step but a new push of it writes to it.
  lemma OutOfReach(s: State, n: Node, a: Action)
    requires Inv(s) && n != Sentinel && n !in s.busy && Enabled(s, a) && !(a.Begin? && a.n == n)
    ensures forall i :: s.t <= i < |s.log| ==> s.log[i] != n && Next(s, s.log[i]) != To(n)
    ensures forall p :: var q := Prod(s, p); q.Idle? || (q.n != n && (q.Exchanged? ==> q.prev != n))
    ensures s.cons.PushLink? ==> s.cons.prev != n
    ensures n !in Step(s, a).busy && Next(Step(s, a), n) == Next(s, n)
  {
    forall i | s.t <= i < |s.log| ensures s.log[i] != n && Next(s, s.log[i]) != To(n) {
      if i + 1 < |s.log| { assert Joined(s, i); }
    }
    forall p ensures var q := Prod(s, p); q.Idle? || (q.n != n && (q.Exchanged? ==> q.prev != n)) {
      assert Holds(s, p);
    }
  }

  lemma QueueHead(s: State)
    requires Window(s)
    ensures Queue(s) == Users([s.tail]) + Users(s.log[s.t + 1..])
    ensures Users([s.tail]) == if s.tail == Sentinel then [] else [s.tail]
  {
    hide Users;
    TailFirst(s);
    UsersConcat([s.tail], s.log[s.t + 1..]);
    UsersOne(s.tail);
  }

  lemma TailFirst(s: State)
    requires Window(s)
    ensures s.t < |s.log| && s.log[s.t..] == [s.tail] + s.log[s.t + 1..]
  {
  }

  lemma UsersOne(n: Node)
    ensures Users([n]) == if n == Sentinel then [] else [n]
  {
    assert [n][..0] == [];
  }

  // The node that pop returns is the oldest one of the queue and is the caller's again.
  lemma HandOff(s: State)
    requires Inv(s) && Return(s) != []
    ensures Queue(s) == Return(s) + Queue(PopStep(s))
    ensures Return(s)[0] != Sentinel && Return(s)[0] in s.busy && Return(s)[0] !in PopStep(s).busy
  {
    var s' := PopStep(s);
    assert s.tail != Sentinel && s' == Take(s, s.tail, s'.tail);
    SecondNode(s);
    QueueHead(s);
  }

  // The sentinel is in the queue at most once; while the consumer pushes it, it is not in the queue
  // and no producer has still to link a node to it.
  lemma SentinelOnce(s: State)
    requires Inv(s)
    ensures forall i, j :: s.t <= i < |s.log| && s.t <= j < |s.log| && s.log[i] == s.log[j] == Sentinel ==> i == j
    ensures s.cons.PushClear? || s.cons.PushXchg? ==>
      NoSentinel(s) && forall p :: Prod(s, p).Exchanged? ==> Prod(s, p).prev != Sentinel
  {
    forall p | (s.cons.PushClear? || s.cons.PushXchg?) && Prod(s, p).Exchanged? ensures Prod(s, p).prev != Sentinel {
      assert Holds(s, p);
    }
  }

  // The number of steps that the consumer has left, at most.
  function Left(c: Consumer): nat {
    match c
    case Ready => 0
    case Reload(_) => 6
    case LoadHead(_) => 5
    case PushClear(_) => 4
    case PushXchg(_) => 3
    case PushLink(_, _, _) => 2
    case Final(_) => 1
  }

  // The rest of a call of pop without any step of a producer in between; a whole call.
  ghost function Finish(s: State): State
    decreases Left(s.cons)
  {
    if s.cons.Ready? then s else Finish(PopStep(s))
  }

  ghost function Call(s: State): State { Finish(PopStep(s)) }

  ghost predicate AllIdle(prod: map<nat, Producer>) {
    forall p :: p in prod ==> prod[p] == Idle
  }

  // No push is going on.
  ghost predicate Quiet(s: State) {
    s.cons == Ready && AllIdle(s.prod)
  }

  lemma QuietLinks(s: State)
    requires Inv(s) && !s.cons.PushLink? && AllIdle(s.prod)
    ensures s.t + 1 < |s.log| <==> Next(s, s.tail) != Null
  {
    if s.t + 1 < |s.log| { assert Joined(s, s.t); }
  }

  lemma {:induction false} FinishInv(s: State)
    requires Inv(s)
    ensures Inv(Finish(s))
    decreases Left(s.cons)
  {
    if !s.cons.Ready? {
      PopInv(s);
      FinishInv(PopStep(s));
    }
  }

  // Pushing the sentinel behind the last node lets pop return that node.
  lemma LastSteps(s: State)
    requires s.cons == LoadHead(s.tail) && s.head == s.tail != Sentinel
    ensures var next := s.next[Sentinel := Null][s.tail := To(Sentinel)];
      Finish(s) == Take(s.(head := Sentinel, next := next, log := s.log + [Sentinel]), s.tail, Sentinel)
  {
    var s1 := PopStep(s);
    var s2 := PopStep(s1);
    var s3 := PopStep(s2);
    var s4 := PopStep(s3);
    var s5 := PopStep(s4);
    assert Finish(s5) == s5;
    assert Finish(s4) == s5 && Finish(s3) == s5;
    assert Finish(s2) == s5 && Finish(s1) == s5;
  }

  lemma LastNode(s: State)
    requires Inv(s) && s.cons == LoadHead(s.tail) && s.t + 1 == |s.log| && AllIdle(s.prod)
    ensures var s' := Finish(s); Inv(s') && Quiet(s') && s'.outcome == Popped(s.tail)
    ensures var s' := Finish(s); Queue(s') == [] && Queue(s) == [s.tail] && s'.popped == s.popped + [s.tail]
  {
    LastSteps(s);
    FinishInv(s);
    assert s.log[s.t..] == [s.tail] && Finish(s).log[s.t + 1..] == [Sentinel];
    UsersOne(s.tail);
    UsersOne(Sentinel);
  }

  // A quiet call, from where tail is not the sentinel.
  lemma QuietTake(s: State)
    requires Inv(s) && s.tail != Sentinel && s.cons in {Ready, Reload(s.tail)} && AllIdle(s.prod)
    ensures var s' := Call(s); Inv(s') && Quiet(s') && s'.outcome == Popped(s.tail)
    ensures var s' := Call(s); Queue(s) == [s.tail] + Queue(s') && s'.popped == s.popped + [s.tail]
  {
    QuietLinks(s);
    PopInv(s);
    var s1 := PopStep(s);
    if s.t + 1 < |s.log| {
      HandOff(s);
    } else {
      LastNode(s1);
    }
  }

  // A pop that finds the sentinel first takes the node after it.
  lemma QuietSecond(s: State)
    requires Inv(s) && Quiet(s) && s.tail == Sentinel && s.t + 1 < |s.log|
    ensures var s' := Call(s); Inv(s') && Quiet(s')
    ensures var s' := Call(s); Queue(s) != [] && s'.outcome == Popped(Queue(s)[0])
    ensures var s' := Call(s); Queue(s') == Queue(s)[1..] && s'.popped == s.popped + [Queue(s)[0]]
  {
    QuietLinks(s);
    QueueHead(s);
    SecondNode(s);
    PopInv(s);
    var s1 := PopStep(s);
    assert s1.log[s1.t] != s.log[s.t];
    QuietTake(s1);
    assert Call(s) == Call(s1);
  }

  // With no push overlapping the call, pop returns the oldest node, and NULL, saying that the queue is
  // empty, exactly when it is.
  lemma QuietPop(s: State)
    requires Inv(s) && Quiet(s)
    ensures var s' := Call(s); Inv(s') && Quiet(s')
    ensures var s' := Call(s);
      if Queue(s) == [] then s' == s.(outcome := Nothing(true)) && s.head == s.tail == Sentinel
      else s'.outcome == Popped(Queue(s)[0]) && Queue(s') == Queue(s)[1..] && s'.popped == s.popped + [Queue(s)[0]]
  {
    QuietLinks(s);
    QueueHead(s);
    if s.tail != Sentinel {
      QuietTake(s);
    } else if s.t + 1 < |s.log| {
      QuietSecond(s);
    }
  }

  // The state after k calls of pop without any push.
  ghost function Calls(s: State, k: nat): State
    decreases k
  {
    if k == 0 then s else Calls(Call(s), k - 1)
  }

  // When the pushes are over, the consumer gets everything that is left, in order, and then finds the
  // queue as mpscq_destroy wants it.
  lemma {:induction false} Drain(s: State)
    requires Inv(s) && Quiet(s)
    ensures var s' := Calls(s, |Queue(s)|);
      Inv(s') && s'.popped == s.popped + Queue(s) && s'.head == s'.tail == Sentinel
    decreases |Queue(s)|
  {
    QuietPop(s);
    if Queue(s) != [] {
      Drain(Call(s));
    }
  }

  // mpscq_is_empty
  predicate IsEmpty(s: State) {
    s.tail == Sentinel && Next(s, s.tail) == Null
  }

  // Pop and mpscq_is_empty call the queue empty if and only if it is, or the sentinel is first and the
  // push of the node after it has still to link it.
  lemma EmptyMeaning(s: State)
    requires Inv(s) && s.cons == Ready
    ensures PopStep(s).cons == Ready && PopStep(s).outcome == Nothing(true) <==> IsEmpty(s)
    ensures IsEmpty(s) <==> s.tail == Sentinel && (Queue(s) == [] || (s.t + 1 < |s.log| && Pending(s, s.t)))
  {
    QueueHead(s);
    if s.t + 1 < |s.log| {
      var n := s.log[s.t + 1];
      UsersConcat([n], s.log[s.t + 2..]);
      assert s.log[s.t + 1..] == [n] + s.log[s.t + 2..];
      UsersOne(n);
      assert Joined(s, s.t);
      if Pending(s, s.t) {
        var p :| Prod(s, p) == Exchanged(n, s.tail, s.t);
        assert Holds(s, p);
      }
    }
  }

  // Every NULL that pop returns, at whichever step: *empty is what EmptyMeaning says, and when it is
  // false there is a node to come back for.
  lemma NullMeaning(s: State)
    requires Inv(s) && PopStep(s).cons == Ready && PopStep(s).outcome.Nothing?
    ensures PopStep(s).outcome.empty <==>
      s.tail == Sentinel && (Queue(s) == [] || (s.t + 1 < |s.log| && Pending(s, s.t)))
    ensures !PopStep(s).outcome.empty ==> Queue(s) != []
  {
    if s.cons == Ready { EmptyMeaning(s); }
    QueueHead(s);
  }

  // So a pop can say that the queue is empty although a push that it does not overlap has put a node
  // there: here user node 1 is queued behind node 0, whose producer has still to link it.
  lemma EmptyMistaken() returns (acts: seq<Action>)
    ensures Runs(Init(), acts)
    ensures var s := Exec(Init(), acts);
      s.t <= |s.log| && s.cons == Ready && IsEmpty(s) && PopStep(s).outcome == Nothing(true)
    ensures var s := Exec(Init(), acts); Prod(s, 1) == Idle && User(1) in Queue(s)
  {
    var a0, a1, a2, a3, a4 := Begin(0, User(0)), Xchg(0), Begin(1, User(1)), Xchg(1), Link(1);
    acts := [a0, a1, a2, a3, a4];
    var s0 := Init();
    var s1 := Step(s0, a0);
    var s2 := Step(s1, a1);
    var s3 := Step(s2, a2);
    var s4 := Step(s3, a3);
    var s5 := Step(s4, a4);
    assert acts[1..] == [a1, a2, a3, a4] && acts[2..] == [a2, a3, a4] && acts[3..] == [a3, a4] && acts[4..] == [a4];
    assert Runs(s5, []) && Exec(s5, []) == s5;
    assert Runs(s4, [a4]) && Exec(s4, [a4]) == s5;
    assert Runs(s3, [a3, a4]) && Exec(s3, [a3, a4]) == s5;
    assert Runs(s2, [a2, a3, a4]) && Exec(s2, [a2, a3, a4]) == s5;
    assert Runs(s1, [a1, a2, a3, a4]) && Exec(s1, [a1, a2, a3, a4]) == s5;
    assert s5.log[s5.t..] == [Sentinel, User(0), User(1)];
    assert Queue(s5) == Users([Sentinel, User(0)]) + [User(1)] by {
      assert s5.log[s5.t..][..2] == [Sentinel, User(0)];
    }
  }
}
