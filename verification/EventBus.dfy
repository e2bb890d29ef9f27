// The simulation scheduler of event_bus.c and the hand-off of event_queue.c.
//
// A heap of the original is the set of its members here, and its minimum any member that no other
// member comes before (what Heap.Heap proves of heap_min); a queue is the sequence of its events
// (Spscq), and the pending list that of its nodes (Mpscq).  event_queue_push, bus_add_queue,
// bus_add_timer and bus_dequeue are atomic.
module EventBus {
  import opened Bits
  import opened Wrappers
  import Heap

  datatype Category = Market | Execution | Service | Command

  datatype Clock = Local | Exchange

  // The event types that the scheduler tells apart.
  datatype Kind = SimulatorStop | SimulatorProgress | QueueOpen | QueueClose | Plain

  datatype Event = Event(kind: Kind, tick: bool, timestamp: int, data: int)

  // A queue that has been added to the bus; id is start_id.
  datatype Queue = Queue(events: seq<Event>, capacity: nat, category: Category, id: nat)

  datatype Timer = Timer(timeout: int, repeat: nat, id: nat)

  // What bus_dequeue returns: a timer that fires, as it was before, or an event.
  datatype Outcome = Nothing | Fired(clock: Clock, key: nat, timer: Timer) | Delivered(e: Event)

  // queue_less_than, for queues that are not empty
  predicate QueueLess(a: Queue, b: Queue)
    requires a.events != [] && b.events != []
  {
    a.events[0].timestamp < b.events[0].timestamp || (a.events[0].timestamp == b.events[0].timestamp && a.id < b.id)
  }

  // timer_less_than
  predicate TimerLess(a: Timer, b: Timer) {
    a.timeout < b.timeout || (a.timeout == b.timeout && a.id < b.id)
  }

  // What the two compare: a time and a start_id.
  predicate KeyLess(a: (int, nat), b: (int, nat)) {
    a.0 < b.0 || (a.0 == b.0 && a.1 < b.1)
  }

  function QueueKey(q: Queue): (int, nat)
    requires q.events != []
  {
    (q.events[0].timestamp, q.id)
  }

  function TimerKey(t: Timer): (int, nat) { (t.timeout, t.id) }

  // Both are orders that a heap takes, so the minimum of Heap.Heap.MinIsLeast is least for them.
  lemma HeapOrder()
    ensures Heap.Order(KeyLess)
    ensures forall a: Timer, b: Timer :: TimerLess(a, b) <==> KeyLess(TimerKey(a), TimerKey(b))
    ensures forall a: Queue, b: Queue :: a.events != [] && b.events != [] ==>
      (QueueLess(a, b) <==> KeyLess(QueueKey(a), QueueKey(b)))
  {
    forall a, b, c | !KeyLess(b, a) && !KeyLess(c, b) ensures !KeyLess(c, a) {}
  }

  // How often a timer fires until ts.
  function Fires(timeout: int, repeat: nat, ts: int): nat
    decreases ts - timeout
  {
    if timeout > ts then 0 else if repeat == 0 then 1 else 1 + Fires(timeout + repeat, repeat, ts)
  }

  lemma {:induction false} FiresCount(timeout: int, repeat: nat, ts: int)
    requires timeout <= ts && repeat > 0
    ensures Fires(timeout, repeat, ts) == (ts - timeout) / repeat + 1
    decreases ts - timeout
  {
    if timeout + repeat <= ts {
      FiresCount(timeout + repeat, repeat, ts);
      var x := ts - timeout - repeat;
      assert x == repeat * (x / repeat) + x % repeat;
      DivUnique(ts - timeout, repeat, x / repeat + 1, x % repeat);
    } else {
      DivUnique(ts - timeout, repeat, 0, ts - timeout);
    }
  }

  // All firings of the timers until ts.
  ghost function Due(m: map<nat, Timer>, ts: int): nat
  {
    if m == map[] then 0 else
      var k :| k in m;
      Fires(m[k].timeout, m[k].repeat, ts) + Due(m - {k}, ts)
  }

  // The events of a queue, counted if it is of the market category or if it is not.
  function Share(q: Queue, market: bool): nat {
    if (q.category == Market) == market then |q.events| else 0
  }

  // All queued market events, or all events queued in the three categories that go before them.
  ghost function Backlog(m: map<nat, Queue>, market: bool): nat
  {
    if m == map[] then 0 else
      var k :| k in m;
      Share(m[k], market) + Backlog(m - {k}, market)
  }

  lemma {:induction false} DueOf(m: map<nat, Timer>, ts: int, k: nat)
    requires k in m
    ensures Due(m, ts) == Fires(m[k].timeout, m[k].repeat, ts) + Due(m - {k}, ts)
  {
    var j :| j in m && Due(m, ts) == Fires(m[j].timeout, m[j].repeat, ts) + Due(m - {j}, ts);
    if j != k {
      DueOf(m - {j}, ts, k);
      DueOf(m - {k}, ts, j);
      assert m - {j} - {k} == m - {k} - {j};
    }
  }

  lemma {:induction false} BacklogOf(m: map<nat, Queue>, market: bool, k: nat)
    requires k in m
    ensures Backlog(m, market) == Share(m[k], market) + Backlog(m - {k}, market)
  {
    var j :| j in m && Backlog(m, market) == Share(m[j], market) + Backlog(m - {j}, market);
    if j != k {
      BacklogOf(m - {j}, market, k);
      BacklogOf(m - {k}, market, j);
      assert m - {j} - {k} == m - {k} - {j};
    }
  }

  lemma DueUpdate(m: map<nat, Timer>, ts: int, k: nat, t: Timer)
    requires k in m
    ensures Due(m[k := t], ts) == Due(m, ts) - Fires(m[k].timeout, m[k].repeat, ts) + Fires(t.timeout, t.repeat, ts)
  {
    DueOf(m, ts, k);
    DueOf(m[k := t], ts, k);
    assert m[k := t] - {k} == m - {k};
  }

  lemma {:induction false} DueNone(m: map<nat, Timer>, ts: int)
    ensures Due(m, ts) == 0 <==> forall k :: k in m ==> m[k].timeout > ts
  {
    if m != map[] {
      var j :| j in m && Due(m, ts) == Fires(m[j].timeout, m[j].repeat, ts) + Due(m - {j}, ts);
      var r := m - {j};
      var f := Fires(m[j].timeout, m[j].repeat, ts);
      assert Due(m, ts) == f + Due(r, ts);
      DueNone(r, ts);
      assert f == 0 <==> m[j].timeout > ts;
      if forall k :: k in m ==> m[k].timeout > ts {
        assert forall k :: k in r ==> r[k].timeout > ts;
      } else {
        var i :| i in m && m[i].timeout <= ts;
        if i != j { assert r[i].timeout <= ts; }
      }
    }
  }

  lemma BacklogUpdate(m: map<nat, Queue>, market: bool, k: nat, q: Queue)
    requires k in m
    ensures Backlog(m[k := q], market) == Backlog(m, market) + Share(q, market) - Share(m[k], market)
  {
    BacklogOf(m, market, k);
    BacklogOf(m[k := q], market, k);
    assert m[k := q] - {k} == m - {k};
  }

  lemma {:induction false} BacklogNone(m: map<nat, Queue>, market: bool)
    ensures Backlog(m, market) == 0 <==> forall k :: k in m ==> Share(m[k], market) == 0
  {
    if m != map[] {
      var j :| j in m && Backlog(m, market) == Share(m[j], market) + Backlog(m - {j}, market);
      var r := m - {j};
      BacklogNone(r, market);
      if forall k :: k in m ==> Share(m[k], market) == 0 {
        assert forall k :: k in r ==> Share(r[k], market) == 0;
      } else {
        var i :| i in m && Share(m[i], market) != 0;
        if i != j { assert Share(r[i], market) != 0; }
      }
    }
  }

  // A heap that is not empty has a minimum.
  predicate LeastQueue(m: map<nat, Queue>, heap: set<nat>, k: nat)
    requires heap <= m.Keys && forall i :: i in heap ==> m[i].events != []
  {
    k in heap && forall i :: i in heap ==> !QueueLess(m[i], m[k])
  }

  lemma {:induction false} SomeLeastQueue(m: map<nat, Queue>, heap: set<nat>) returns (k: nat)
    requires heap <= m.Keys && (forall i :: i in heap ==> m[i].events != []) && heap != {}
    ensures LeastQueue(m, heap, k)
  {
    k :| k in heap;
    if heap != {k} {
      var j := SomeLeastQueue(m, heap - {k});
      if QueueLess(m[j], m[k]) { k := j; }
    }
  }

  predicate LeastTimer(m: map<nat, Timer>, k: nat) {
    k in m && forall i :: i in m ==> !TimerLess(m[i], m[k])
  }

  lemma {:induction false} SomeLeastTimer(m: map<nat, Timer>) returns (k: nat)
    requires m != map[]
    ensures LeastTimer(m, k)
  {
    k :| k in m;
    var r := m - {k};
    if r != map[] {
      var j := SomeLeastTimer(r);
      if TimerLess(m[j], m[k]) { k := j; }
      forall i | i in m ensures !TimerLess(m[i], m[k]) { if i in r { assert !TimerLess(r[i], r[j]); } }
    } else {
      assert forall i :: i in m ==> i == k || i in r;
    }
  }

  // Every queue that is not empty is in its heap or, once, in the pending list, and no empty one is;
  // start_id tells the queues apart.
  ghost predicate Accounted(qs: map<nat, Queue>, heap: set<nat>, pending: seq<nat>, counter: nat) {
    && heap <= qs.Keys
    && (forall k :: k in heap ==> qs[k].events != [])
    && (forall k :: k in pending ==> k in qs && qs[k].events != [] && k !in heap)
    && (forall i, j :: 0 <= i < j < |pending| ==> pending[i] != pending[j])
    && (forall k :: k in qs && qs[k].events != [] ==> k in heap || k in pending)
    && (forall k :: k in qs ==> qs[k].id < counter)
    && (forall j, k :: j in qs && k in qs && j != k ==> qs[j].id != qs[k].id)
  }

  // start_id tells the timers of a heap apart.
  ghost predicate Numbered(m: map<nat, Timer>, counter: nat) {
    && (forall k :: k in m ==> m[k].id < counter)
    && (forall j, k :: j in m && k in m && j != k ==> m[j].id != m[k].id)
  }

  lemma CounterGrows(local: map<nat, Timer>, exchange: map<nat, Timer>, counter: nat, counter': nat)
    requires Numbered(local, counter) && Numbered(exchange, counter) && counter <= counter'
    ensures Numbered(local, counter') && Numbered(exchange, counter')
  {
  }

  // The members of the heap of category c.
  function Pipe(qs: map<nat, Queue>, heap: set<nat>, c: Category): set<nat> {
    set k | k in heap && k in qs && qs[k].category == c
  }

  // Queue k without its first event; if there are more, it goes behind all others.
  function Served(q: Queue, counter: nat): Queue
    requires q.events != []
  {
    q.(events := q.events[1..], id := if |q.events| == 1 then q.id else counter)
  }

  lemma HeapMembers(qs: map<nat, Queue>, heap: set<nat>, pending: seq<nat>, counter: nat)
    requires Accounted(qs, heap, pending, counter)
    ensures heap <= qs.Keys && forall k :: k in heap ==> qs[k].events != []
  {
  }

  lemma AddedAccounted(qs: map<nat, Queue>, heap: set<nat>, pending: seq<nat>, counter: nat, k: nat, q: Queue)
    requires Accounted(qs, heap, pending, counter) && k !in qs
    ensures Accounted(qs[k := q.(id := counter)], if q.events == [] then heap else heap + {k}, pending, counter + 1)
  {
  }

  lemma ServedAccounted(qs: map<nat, Queue>, heap: set<nat>, pending: seq<nat>, counter: nat, k: nat)
    requires Accounted(qs, heap, pending, counter) && k in heap
    ensures var q := Served(qs[k], counter);
      if q.events == [] then Accounted(qs[k := q], heap - {k}, pending, counter)
      else Accounted(qs[k := q], heap, pending, counter + 1)
  {
  }

  // Of queues whose first events are equally old the one served longest ago comes first: start_id is
  // the time of the last service, and serving a queue puts it behind all others.
  lemma TieBreak(qs: map<nat, Queue>, heap: set<nat>, pending: seq<nat>, counter: nat, c: Category, k: nat, j: nat)
    requires Accounted(qs, heap, pending, counter) && k in Pipe(qs, heap, c) && j in Pipe(qs, heap, c) && j != k
    requires LeastQueue(qs, Pipe(qs, heap, c), k)
    ensures qs[k].events[0].timestamp <= qs[j].events[0].timestamp
    ensures qs[k].events[0].timestamp == qs[j].events[0].timestamp ==> qs[k].id < qs[j].id
    ensures |qs[k].events| > 1 ==> qs[j].id < Served(qs[k], counter).id
  {
    assert !QueueLess(qs[j], qs[k]);
  }

  // The events of queue k in a sequence of events of all queues.
  function Project(out: seq<(nat, Event)>, k: nat): seq<Event> {
    if out == [] then [] else Project(out[..|out| - 1], k) + (if out[|out| - 1].0 == k then [out[|out| - 1].1] else [])
  }

  ghost predicate Nondecreasing(es: seq<Event>) {
    forall i, j :: 0 <= i < j < |es| ==> es[i].timestamp <= es[j].timestamp
  }

  ghost predicate OutTimely(out: seq<(nat, Event)>) {
    forall i, j :: 0 <= i < j < |out| ==> out[i].1.timestamp <= out[j].1.timestamp
  }

  // All is in order of time, what has been popped and what is left.
  ghost predicate Timely(qs: map<nat, Queue>, pipe: set<nat>, out: seq<(nat, Event)>) {
    && OutTimely(out)
    && (forall k :: k in pipe ==> k in qs && qs[k].events != [] && Nondecreasing(qs[k].events))
    && (out != [] ==> forall k :: k in pipe ==> out[|out| - 1].1.timestamp <= qs[k].events[0].timestamp)
  }

  ghost predicate AllTimely(qs: map<nat, Queue>, pipe: set<nat>) {
    forall k :: k in pipe ==> k in qs && Nondecreasing(qs[k].events)
  }

  lemma TimelyStep(qs: map<nat, Queue>, heap: set<nat>, heap': set<nat>, c: Category, out: seq<(nat, Event)>, k: nat,
      n: nat)
    requires Timely(qs, Pipe(qs, heap, c), out) && LeastQueue(qs, Pipe(qs, heap, c), k)
    requires forall j :: j in heap' ==> j in heap && (j == k ==> |qs[k].events| > 1)
    ensures var qs' := qs[k := Served(qs[k], n)]; Timely(qs', Pipe(qs', heap', c), out + [(k, qs[k].events[0])])
  {
    var qs' := qs[k := Served(qs[k], n)];
    forall j | j in Pipe(qs', heap', c)
      ensures j in Pipe(qs, heap, c) && qs[k].events[0].timestamp <= qs'[j].events[0].timestamp
    {
      assert !QueueLess(qs[j], qs[k]);
    }
  }

  ghost predicate InOrder(qs0: map<nat, Queue>, pipe0: set<nat>, qs: map<nat, Queue>, out: seq<(nat, Event)>) {
    qs.Keys == qs0.Keys && forall k {:trigger Project(out, k)} :: k in qs0 ==>
      Project(out, k) + qs[k].events == qs0[k].events && qs[k].category == qs0[k].category
      && (k !in pipe0 ==> qs[k] == qs0[k])
  }

  lemma OutStep(qs0: map<nat, Queue>, pipe0: set<nat>, qs: map<nat, Queue>, out: seq<(nat, Event)>, k: nat, n: nat)
    requires InOrder(qs0, pipe0, qs, out) && k in pipe0 && k in qs && qs[k].events != []
    ensures InOrder(qs0, pipe0, qs[k := Served(qs[k], n)], out + [(k, qs[k].events[0])])
  {
    var out' := out + [(k, qs[k].events[0])];
    assert out'[..|out|] == out;
    forall j | j in qs0 ensures Project(out', j) == Project(out, j) + (if j == k then [qs[k].events[0]] else []) {}
    assert Project(out, k) + qs[k].events == qs0[k].events;
    assert qs[k].events == [qs[k].events[0]] + qs[k].events[1..];
  }

  // The first pending queue goes to its heap.
  lemma ReaddAccounted(qs: map<nat, Queue>, heap: set<nat>, pending: seq<nat>, counter: nat)
    requires Accounted(qs, heap, pending, counter) && pending != []
    ensures pending[0] in qs && pending[0] !in heap && qs[pending[0]].events != []
    ensures Accounted(qs[pending[0] := qs[pending[0]].(id := counter)], heap + {pending[0]}, pending[1..], counter + 1)
  {
    assert pending == [pending[0]] + pending[1..];
  }

  // When queue k was last served, counted from 1, or 0 if it was not served.
  function Last(out: seq<(nat, Event)>, k: nat): (n: nat)
    ensures n <= |out|
  {
    if out == [] then 0 else if out[|out| - 1].0 == k then |out| else Last(out[..|out| - 1], k)
  }

  // Queue k waits longer than queue j: its last service is longer ago or, if neither was served, its
  // start_id was the smaller one when the merge began.
  predicate Waits(qs0: map<nat, Queue>, out: seq<(nat, Event)>, k: nat, j: nat)
    requires k in qs0 && j in qs0
  {
    Last(out, k) < Last(out, j) || (Last(out, k) == 0 && Last(out, j) == 0 && qs0[k].id < qs0[j].id)
  }

  // After out, event e of queue k goes before the next event of every other queue: it is older, or as
  // old and its queue waits longer.
  ghost predicate Foremost(qs0: map<nat, Queue>, pipe0: set<nat>, out: seq<(nat, Event)>, k: nat, e: Event) {
    k in qs0 && forall j {:trigger Project(out, j)} ::
      j in pipe0 && j in qs0 && j != k && |Project(out, j)| < |qs0[j].events| ==>
        var ts := qs0[j].events[|Project(out, j)|].timestamp;
        e.timestamp < ts || (e.timestamp == ts && Waits(qs0, out, k, j))
  }

  ghost predicate Fair(qs0: map<nat, Queue>, pipe0: set<nat>, out: seq<(nat, Event)>) {
    forall t :: 0 <= t < |out| ==> out[t].0 in pipe0 && Foremost(qs0, pipe0, out[..t], out[t].0, out[t].1)
  }

  // Every queue with events left is in the pipe, and the smaller start_id there waits longer.
  ghost predicate Ranked(qs0: map<nat, Queue>, pipe0: set<nat>, qs: map<nat, Queue>, pipe: set<nat>,
      out: seq<(nat, Event)>) {
    && pipe <= pipe0 && pipe0 <= qs0.Keys && qs.Keys == qs0.Keys
    && (forall j :: j in pipe0 && qs[j].events != [] ==> j in pipe)
    && (forall j, k :: j in pipe && k in pipe && qs[j].id < qs[k].id ==> Waits(qs0, out, j, k))
  }

  lemma RankedStep(qs0: map<nat, Queue>, pipe0: set<nat>, qs: map<nat, Queue>, pipe: set<nat>, pipe': set<nat>,
      out: seq<(nat, Event)>, k: nat, e: Event, n: nat)
    requires Ranked(qs0, pipe0, qs, pipe, out) && k in pipe && qs[k].events != []
    requires forall j :: j in pipe ==> qs[j].id < n
    requires pipe' == if |qs[k].events| > 1 then pipe else pipe - {k}
    ensures Ranked(qs0, pipe0, qs[k := Served(qs[k], n)], pipe', out + [(k, e)])
  {
    var out' := out + [(k, e)];
    assert out'[..|out|] == out;
    forall i, j | i in pipe' && j in pipe' && i != k && (j == k || qs[i].id < qs[j].id) ensures Waits(qs0, out', i, j) {
      assert Last(out', i) == Last(out, i);
    }
  }

  // A merge under way: out is in order and fair, and what is left is ranked.
  ghost predicate Merging(qs0: map<nat, Queue>, pipe0: set<nat>, qs: map<nat, Queue>, pipe: set<nat>,
      out: seq<(nat, Event)>) {
    InOrder(qs0, pipe0, qs, out) && Ranked(qs0, pipe0, qs, pipe, out) && Fair(qs0, pipe0, out)
  }

  // The least queue of the pipe is the one whose turn it is.
  lemma FairStep(qs0: map<nat, Queue>, pipe0: set<nat>, qs: map<nat, Queue>, heap: set<nat>, pending: seq<nat>,
      counter: nat, c: Category, out: seq<(nat, Event)>, k: nat)
    requires Accounted(qs, heap, pending, counter) && LeastQueue(qs, Pipe(qs, heap, c), k)
    requires Merging(qs0, pipe0, qs, Pipe(qs, heap, c), out)
    ensures Fair(qs0, pipe0, out + [(k, qs[k].events[0])])
  {
    var e := qs[k].events[0];
    var out' := out + [(k, e)];
    forall j | j in pipe0 && j != k && |Project(out, j)| < |qs0[j].events|
      ensures var ts := qs0[j].events[|Project(out, j)|].timestamp;
        e.timestamp < ts || (e.timestamp == ts && Waits(qs0, out, k, j))
    {
      assert Project(out, j) + qs[j].events == qs0[j].events;
      TieBreak(qs, heap, pending, counter, c, k, j);
    }
    assert Foremost(qs0, pipe0, out, k, e);
    forall t | 0 <= t < |out'| ensures out'[t].0 in pipe0 && Foremost(qs0, pipe0, out'[..t], out'[t].0, out'[t].1) {
      assert out'[..t] == out[..t];
      assert t == |out| ==> out[..t] == out;
    }
  }

  lemma MergingStart(qs: map<nat, Queue>, heap: set<nat>, pending: seq<nat>, counter: nat, c: Category)
    requires Accounted(qs, heap, pending, counter)
    ensures Merging(qs, Pipe(qs, heap, c), qs, Pipe(qs, heap, c), [])
    ensures AllTimely(qs, Pipe(qs, heap, c)) ==> Timely(qs, Pipe(qs, heap, c), [])
  {
  }

  lemma MergingStep(qs0: map<nat, Queue>, pipe0: set<nat>, qs: map<nat, Queue>, heap: set<nat>, pending: seq<nat>,
      counter: nat, c: Category, out: seq<(nat, Event)>, k: nat)
    requires Accounted(qs, heap, pending, counter) && LeastQueue(qs, Pipe(qs, heap, c), k)
    requires Merging(qs0, pipe0, qs, Pipe(qs, heap, c), out)
    ensures qs[k].events != [] && qs[k].category == c
    ensures var qs', heap' := qs[k := Served(qs[k], counter)], if |qs[k].events| > 1 then heap else heap - {k};
      Merging(qs0, pipe0, qs', Pipe(qs', heap', c), out + [(k, qs[k].events[0])])
  {
    var qs', heap' := qs[k := Served(qs[k], counter)], if |qs[k].events| > 1 then heap else heap - {k};
    var pipe, e := Pipe(qs, heap, c), qs[k].events[0];
    assert Pipe(qs', heap', c) == if |qs[k].events| > 1 then pipe else pipe - {k};
    OutStep(qs0, pipe0, qs, out, k, counter);
    FairStep(qs0, pipe0, qs, heap, pending, counter, c, out, k);
    RankedStep(qs0, pipe0, qs, pipe, Pipe(qs', heap', c), out, k, e, counter);
  }

  lemma {:induction false} ProjectPrefix(out: seq<(nat, Event)>, n: nat, k: nat)
    requires n <= |out|
    ensures Project(out[..n], k) <= Project(out, k)
    decreases |out|
  {
    if n == |out| {
      assert out[..n] == out;
    } else {
      ProjectPrefix(out[..|out| - 1], n, k);
      assert out[..|out| - 1][..n] == out[..n];
    }
  }

  // The event popped at n is the next one of its queue.
  lemma PoppedNext(out: seq<(nat, Event)>, n: nat)
    requires n < |out|
    ensures var done, k := out[..n], out[n].0;
      |Project(done, k)| < |Project(out, k)| && Project(out, k)[|Project(done, k)|] == out[n].1
  {
    ProjectPrefix(out, n + 1, out[n].0);
    assert out[..n + 1][..n] == out[..n];
  }

  // out holds all events of the pipe, those of each queue in their order.
  ghost predicate Interleaves(qs0: map<nat, Queue>, pipe0: set<nat>, out: seq<(nat, Event)>) {
    forall k {:trigger Project(out, k)} :: k in pipe0 ==> k in qs0 && Project(out, k) == qs0[k].events
  }

  // Event e of queue k may be popped next.
  ghost predicate Choice(qs0: map<nat, Queue>, pipe0: set<nat>, done: seq<(nat, Event)>, k: nat, e: Event) {
    && Foremost(qs0, pipe0, done, k, e) && k in pipe0
    && |Project(done, k)| < |qs0[k].events| && qs0[k].events[|Project(done, k)|] == e
  }

  lemma OneChoice(qs0: map<nat, Queue>, pipe0: set<nat>, done: seq<(nat, Event)>, k: nat, e: Event, k': nat, e': Event)
    requires Choice(qs0, pipe0, done, k, e) && Choice(qs0, pipe0, done, k', e')
    ensures k == k' && e == e'
  {
  }

  lemma Chosen(qs0: map<nat, Queue>, pipe0: set<nat>, out: seq<(nat, Event)>, n: nat)
    requires Fair(qs0, pipe0, out) && n < |out|
    requires Interleaves(qs0, pipe0, out)
    ensures Choice(qs0, pipe0, out[..n], out[n].0, out[n].1)
  {
    PoppedNext(out, n);
  }

  lemma {:induction false} SamePrefix(qs0: map<nat, Queue>, pipe0: set<nat>, out: seq<(nat, Event)>,
      out': seq<(nat, Event)>, n: nat)
    requires Fair(qs0, pipe0, out) && Fair(qs0, pipe0, out') && n <= |out| && n <= |out'|
    requires Interleaves(qs0, pipe0, out) && Interleaves(qs0, pipe0, out')
    ensures out[..n] == out'[..n]
  {
    hide Fair, Interleaves, Choice;
    if n > 0 {
      SamePrefix(qs0, pipe0, out, out', n - 1);
      Chosen(qs0, pipe0, out, n - 1);
      Chosen(qs0, pipe0, out', n - 1);
      OneChoice(qs0, pipe0, out[..n - 1], out[n - 1].0, out[n - 1].1, out'[n - 1].0, out'[n - 1].1);
      assert out[..n] == out[..n - 1] + [out[n - 1]] && out'[..n] == out'[..n - 1] + [out'[n - 1]];
    }
  }

  // The queues and their start_ids decide the merge: there is only one fair interleaving of them.
  lemma MergeUnique(qs0: map<nat, Queue>, pipe0: set<nat>, out: seq<(nat, Event)>, out': seq<(nat, Event)>)
    requires Fair(qs0, pipe0, out) && Fair(qs0, pipe0, out')
    requires Interleaves(qs0, pipe0, out) && Interleaves(qs0, pipe0, out')
    ensures out == out'
    decreases |out|
  {
    if |out| <= |out'| {
      SamePrefix(qs0, pipe0, out, out', |out|);
      if |out| < |out'| { PoppedNext(out', |out|); }
      assert out == out[..|out|];
    } else {
      MergeUnique(qs0, pipe0, out', out);
    }
  }

  // The pending queues have got the next start_ids, in the order in which they were announced.
  ghost predicate Arrived(qs0: map<nat, Queue>, pending: seq<nat>, counter: nat, qs: map<nat, Queue>) {
    && qs.Keys == qs0.Keys
    && (forall i :: 0 <= i < |pending| ==> pending[i] in qs0 && qs[pending[i]] == qs0[pending[i]].(id := counter + i))
    && (forall k :: k in qs0 && k !in pending ==> qs[k] == qs0[k])
  }

  lemma ArrivedStep(qs0: map<nat, Queue>, pending: seq<nat>, counter: nat, i: nat, qs: map<nat, Queue>)
    requires i < |pending| && Arrived(qs0, pending[..i], counter, qs) && pending[i] in qs0
    requires forall j, k :: 0 <= j < k < |pending| ==> pending[j] != pending[k]
    ensures Arrived(qs0, pending[..i + 1], counter, qs[pending[i] := qs[pending[i]].(id := counter + i)])
  {
    assert pending[..i + 1] == pending[..i] + [pending[i]];
    assert pending[i] !in pending[..i];
  }

  // Of two pending queues whose first events are equally old the one announced first goes first, and a
  // queue that is in its heap already goes before both.
  lemma AnnouncedFirst(qs0: map<nat, Queue>, heap: set<nat>, pending: seq<nat>, counter: nat, qs: map<nat, Queue>,
      i: nat, j: nat, k: nat)
    requires Accounted(qs0, heap, pending, counter) && Arrived(qs0, pending, counter, qs)
    requires i < j < |pending| && k in heap
    ensures var a, b, c := qs[k], qs[pending[i]], qs[pending[j]];
      && a.events != [] && b.events != [] && c.events != []
      && (b.events[0].timestamp == c.events[0].timestamp ==> QueueLess(b, c))
      && (a.events[0].timestamp == b.events[0].timestamp ==> QueueLess(a, b))
  {
    assert pending[i] in pending && pending[j] in pending && k !in pending;
  }

  // Nothing has changed but the start_id of queues that were in no heap.
  ghost predicate OnlyIds(qs0: map<nat, Queue>, heap0: set<nat>, qs: map<nat, Queue>, heap: set<nat>) {
    && Backlog(qs, false) == Backlog(qs0, false) && Backlog(qs, true) == Backlog(qs0, true)
    && qs.Keys == qs0.Keys && (forall k :: k in qs ==> qs[k] == qs0[k].(id := qs[k].id))
    && (forall k :: k in heap0 ==> k in heap && k in qs && qs[k] == qs0[k])
  }

  lemma ReaddOnlyIds(qs0: map<nat, Queue>, heap0: set<nat>, qs: map<nat, Queue>, heap: set<nat>, k: nat, counter: nat)
    requires OnlyIds(qs0, heap0, qs, heap) && k in qs && k !in heap
    ensures OnlyIds(qs0, heap0, qs[k := qs[k].(id := counter)], heap + {k})
  {
    BacklogUpdate(qs, false, k, qs[k].(id := counter));
    BacklogUpdate(qs, true, k, qs[k].(id := counter));
  }

  // The first i pending queues have been added.
  ghost predicate Coming(qs0: map<nat, Queue>, heap0: set<nat>, pending0: seq<nat>, c0: nat, i: nat,
      qs: map<nat, Queue>, heap: set<nat>, pending: seq<nat>, counter: nat)
  {
    && Accounted(qs, heap, pending, counter) && OnlyIds(qs0, heap0, qs, heap)
    && i <= |pending0| && pending == pending0[i..] && counter == c0 + i && Arrived(qs0, pending0[..i], c0, qs)
    && (forall j, k :: 0 <= j < k < |pending0| ==> pending0[j] != pending0[k])
  }

  lemma ComingStart(qs: map<nat, Queue>, heap: set<nat>, pending: seq<nat>, counter: nat)
    requires Accounted(qs, heap, pending, counter)
    ensures Coming(qs, heap, pending, counter, 0, qs, heap, pending, counter)
  {
    assert pending[..0] == [];
  }

  lemma ComingStep(qs0: map<nat, Queue>, heap0: set<nat>, pending0: seq<nat>, c0: nat, i: nat,
      qs: map<nat, Queue>, heap: set<nat>, pending: seq<nat>, counter: nat)
    requires Coming(qs0, heap0, pending0, c0, i, qs, heap, pending, counter) && pending != []
    ensures var k := pending[0];
      && k in qs && qs[k].events != []
      && Coming(qs0, heap0, pending0, c0, i + 1, qs[k := qs[k].(id := counter)], heap + {k}, pending[1..], counter + 1)
  {
    ReaddAccounted(qs, heap, pending, counter);
    hide Accounted, OnlyIds, Arrived, Backlog;
    ReaddOnlyIds(qs0, heap0, qs, heap, pending[0], counter);
    ComingArrived(qs0, pending0, c0, i, qs, pending);
  }

  lemma ComingArrived(qs0: map<nat, Queue>, pending0: seq<nat>, c0: nat, i: nat, qs: map<nat, Queue>, pending: seq<nat>)
    requires i <= |pending0| && pending == pending0[i..] && pending != [] && Arrived(qs0, pending0[..i], c0, qs)
    requires (forall j, k :: 0 <= j < k < |pending0| ==> pending0[j] != pending0[k]) && pending[0] in qs
    ensures i + 1 <= |pending0| && pending[1..] == pending0[i + 1..]
    ensures Arrived(qs0, pending0[..i + 1], c0, qs[pending[0] := qs[pending[0]].(id := c0 + i)])
  {
    assert pending[0] == pending0[i];
    ArrivedStep(qs0, pending0, c0, i, qs);
  }

  lemma ComingEnd(qs0: map<nat, Queue>, heap0: set<nat>, pending0: seq<nat>, c0: nat, i: nat,
      qs: map<nat, Queue>, heap: set<nat>, pending: seq<nat>, counter: nat)
    requires Coming(qs0, heap0, pending0, c0, i, qs, heap, pending, counter) && pending == []
    ensures Accounted(qs, heap, [], counter) && OnlyIds(qs0, heap0, qs, heap) && counter == c0 + |pending0|
    ensures Arrived(qs0, pending0, c0, qs)
    ensures forall j :: 0 <= j < |pending0| ==> pending0[j] in qs && qs[pending0[j]].id == c0 + j
  {
    hide Accounted, OnlyIds;
    assert pending0[..i] == pending0;
  }

  // A timer that fires leaves its heap or is set to its next time.
  function Refired(m: map<nat, Timer>, key: nat, counter: nat): map<nat, Timer>
    requires key in m
  {
    if m[key].repeat == 0 then m - {key}
    else m[key := m[key].(id := counter, timeout := m[key].timeout + m[key].repeat)]
  }

  lemma QueuesGrow(qs: map<nat, Queue>, heap: set<nat>, pending: seq<nat>, counter: nat)
    requires Accounted(qs, heap, pending, counter)
    ensures Accounted(qs, heap, pending, counter + 1)
  {
  }

  // Taking the timer off the heap and, if it repeats, putting it back amounts to Refired.
  lemma RefiredStores(m: map<nat, Timer>, key: nat, counter: nat)
    requires key in m
    ensures var t, rest := m[key], m - {key};
      Refired(m, key, counter) ==
        if t.repeat == 0 then rest else rest[key := t.(id := counter, timeout := t.timeout + t.repeat)]
  {
    var rest := (m - {key})[key := m[key].(id := counter, timeout := m[key].timeout + m[key].repeat)];
    assert rest == m[key := rest[key]];
  }

  lemma RefiredNumbered(m: map<nat, Timer>, key: nat, counter: nat)
    requires Numbered(m, counter) && key in m
    ensures Numbered(Refired(m, key, counter), counter + 1)
    ensures m[key].repeat == 0 ==> Numbered(Refired(m, key, counter), counter)
  {
  }

  // There is no choice of the least timer, and one that repeats goes behind all timers that are set to
  // its next time.
  lemma TimerTieBreak(m: map<nat, Timer>, key: nat, counter: nat, k: nat)
    requires Numbered(m, counter) && LeastTimer(m, key) && k in m && k != key
    ensures TimerLess(m[key], m[k])
    ensures m[key].repeat != 0 && m[k].timeout == m[key].timeout + m[key].repeat ==>
      TimerLess(m[k], Refired(m, key, counter)[key])
  {
    assert !TimerLess(m[k], m[key]);
  }

  // The timeouts at which timer k has fired.
  function Firings(out: seq<(nat, Timer)>, k: nat): seq<int> {
    if out == [] then []
    else Firings(out[..|out| - 1], k) + (if out[|out| - 1].0 == k then [out[|out| - 1].1.timeout] else [])
  }

  // The timeout after n firings.
  function Nth(t: Timer, n: nat): int { t.timeout + n * t.repeat }

  // Timer k has fired at its timeouts, one after the other, and is set to the next one or, if it does
  // not repeat, has left the heap after the first.
  ghost predicate OnSchedule(m0: map<nat, Timer>, m: map<nat, Timer>, fired: seq<int>, k: nat)
    requires k in m0
  {
    && (forall i :: 0 <= i < |fired| ==> fired[i] == Nth(m0[k], i))
    && (k in m <==> m0[k].repeat != 0 || fired == []) && (m0[k].repeat == 0 ==> |fired| <= 1)
    && (k in m ==> m[k].repeat == m0[k].repeat && m[k].timeout == Nth(m0[k], |fired|))
  }

  ghost predicate Scheduled(m0: map<nat, Timer>, m: map<nat, Timer>, out: seq<(nat, Timer)>) {
    && m.Keys <= m0.Keys && (forall i :: 0 <= i < |out| ==> out[i].0 in m0)
    && forall k {:trigger Firings(out, k)} :: k in m0 ==> OnSchedule(m0, m, Firings(out, k), k)
  }

  // Timeouts do not decrease, equal ones come in the order in which they were set, which is that of
  // their start_id, and all timers left come after those that have fired.
  ghost predicate FiredInOrder(out: seq<(nat, Timer)>, m: map<nat, Timer>) {
    && (forall i, j :: 0 <= i < j < |out| ==> TimerLess(out[i].1, out[j].1))
    && (out != [] ==> forall k :: k in m ==> TimerLess(out[|out| - 1].1, m[k]))
  }

  lemma NthNext(t: Timer, n: nat)
    ensures Nth(t, n + 1) == Nth(t, n) + t.repeat && Nth(t, 0) == t.timeout
  {
    assert (n + 1) * t.repeat == n * t.repeat + t.repeat;
  }

  lemma ScheduledStart(m: map<nat, Timer>)
    ensures Scheduled(m, m, []) && FiredInOrder([], m)
  {
    forall k | k in m ensures Nth(m[k], 0) == m[k].timeout { NthNext(m[k], 0); }
  }

  lemma ScheduledStep(m0: map<nat, Timer>, m: map<nat, Timer>, out: seq<(nat, Timer)>, key: nat, counter: nat)
    requires Scheduled(m0, m, out) && LeastTimer(m, key)
    ensures Scheduled(m0, Refired(m, key, counter), out + [(key, m[key])])
  {
    var out', m' := out + [(key, m[key])], Refired(m, key, counter);
    assert out'[..|out|] == out;
    forall k | k in m0 ensures OnSchedule(m0, m', Firings(out', k), k) {
      assert OnSchedule(m0, m, Firings(out, k), k);
      NthNext(m0[k], |Firings(out, k)|);
    }
  }

  // A heap that runs empty held only timers that do not repeat, and each has fired once, at its timeout.
  lemma FiredOnce(m0: map<nat, Timer>, out: seq<(nat, Timer)>, k: nat)
    requires Scheduled(m0, map[], out) && k in m0
    ensures m0[k].repeat == 0 && Firings(out, k) == [m0[k].timeout]
  {
    assert OnSchedule(m0, map[], Firings(out, k), k);
    NthNext(m0[k], 0);
  }

  lemma FiredInOrderStep(m: map<nat, Timer>, out: seq<(nat, Timer)>, key: nat, counter: nat)
    requires FiredInOrder(out, m) && Numbered(m, counter) && LeastTimer(m, key)
    ensures FiredInOrder(out + [(key, m[key])], Refired(m, key, counter))
  {
    var m' := Refired(m, key, counter);
    forall k | k in m' ensures TimerLess(m[key], m'[k]) {
      if k != key { TimerTieBreak(m, key, counter, k); }
    }
  }

  lemma RefiredDue(m: map<nat, Timer>, key: nat, counter: nat, ts: int)
    requires key in m && m[key].timeout <= ts
    ensures Due(Refired(m, key, counter), ts) == Due(m, ts) - 1
  {
    if m[key].repeat == 0 {
      DueOf(m, ts, key);
    } else {
      DueUpdate(m, ts, key, m[key].(id := counter, timeout := m[key].timeout + m[key].repeat));
    }
  }

  lemma DueLeast(m: map<nat, Timer>, key: nat, ts: int)
    requires LeastTimer(m, key)
    ensures m[key].timeout <= ts <==> Due(m, ts) > 0
  {
    DueNone(m, ts);
  }

  // Whether the market events popped are passed over, and whether the simulator's stop is among them.
  ghost predicate Skipped(out: seq<(nat, Event)>, time: int, before: bool, after: bool) {
    && (forall i :: 0 <= i < |out| ==> Late(out[i].1, time))
    && (after <==> before || exists i :: 0 <= i < |out| && out[i].1.kind == SimulatorStop)
  }

  predicate Late(e: Event, time: int) {
    e.kind == SimulatorStop || (e.kind == Plain && e.timestamp < time)
  }

  // Only the simulator's stop, and what is older than the bus and neither opens or closes a queue nor
  // reports progress, is passed over.
  lemma LateMeaning(e: Event, time: int)
    ensures Late(e, time) <==>
      e.kind == SimulatorStop || (e.timestamp < time && e.kind !in {QueueOpen, QueueClose, SimulatorProgress})
  {
  }

  // An event is not older than the bus.
  function Current(e: Event, time: int): Event {
    if e.timestamp < time then e.(timestamp := time) else e
  }

  lemma CurrentMeaning(e: Event, time: int)
    ensures var e' := Current(e, time);
      && e'.kind == e.kind && e'.tick == e.tick && e'.data == e.data
      && e'.timestamp >= e.timestamp && e'.timestamp >= time && e'.timestamp in {e.timestamp, time}
  {
  }

  lemma SkipStep(out: seq<(nat, Event)>, out': seq<(nat, Event)>, time: int, before: bool, was: bool, after: bool)
    requires |out'| == |out| + 1 && out'[..|out|] == out && Skipped(out, time, before, was)
    requires Late(out'[|out|].1, time) && (after <==> was || out'[|out|].1.kind == SimulatorStop)
    ensures Skipped(out', time, before, after)
  {
    assert forall i :: 0 <= i < |out| ==> out'[i] == out[i];
  }

  // No market event that is queued will be older than e when it is fetched.
  ghost predicate Earliest(qs: map<nat, Queue>, time: int, e: Event) {
    forall k :: k in qs && qs[k].category == Market && qs[k].events != [] ==>
      e.timestamp <= Current(qs[k].events[0], time).timestamp
  }

  // Every market queue is in order of time, and the saved event is the earliest market event.
  ghost predicate Chronological(qs: map<nat, Queue>, time: int, saved: Option<Event>) {
    && (forall k :: k in qs && qs[k].category == Market ==> Nondecreasing(qs[k].events))
    && (saved != None ==> Earliest(qs, time, saved.value))
  }

  lemma PendingChronological(qs0: map<nat, Queue>, heap0: set<nat>, qs: map<nat, Queue>, heap: set<nat>, time: int,
      saved: Option<Event>)
    requires OnlyIds(qs0, heap0, qs, heap) && Chronological(qs0, time, saved)
    ensures Chronological(qs, time, saved)
  {
    forall k | k in qs ensures qs[k].events == qs0[k].events && qs[k].category == qs0[k].category {}
  }

  lemma NondecreasingLeft(qs0: map<nat, Queue>, pipe0: set<nat>, qs: map<nat, Queue>, out: seq<(nat, Event)>, k: nat)
    requires InOrder(qs0, pipe0, qs, out) && k in qs && Nondecreasing(qs0[k].events)
    ensures Nondecreasing(qs[k].events)
  {
    var n := |Project(out, k)|;
    assert Project(out, k) + qs[k].events == qs0[k].events;
    assert forall i :: 0 <= i < |qs[k].events| ==> qs[k].events[i] == qs0[k].events[n + i];
  }

  lemma FetchedChronological(qs0: map<nat, Queue>, pipe0: set<nat>, qs: map<nat, Queue>, heap: set<nat>, counter: nat,
      time: int, out: seq<(nat, Event)>, saved: Option<Event>)
    requires Chronological(qs0, time, None) && InOrder(qs0, pipe0, qs, out) && Accounted(qs, heap, [], counter)
    requires forall k :: k in pipe0 ==> k in qs0 && qs0[k].category == Market
    requires AllTimely(qs0, pipe0) ==> Timely(qs, Pipe(qs, heap, Market), out)
    requires saved != None ==> out != [] && saved == Some(Current(out[|out| - 1].1, time))
    ensures Chronological(qs, time, saved)
  {
    forall k | k in qs && qs[k].category == Market ensures Nondecreasing(qs[k].events) {
      assert Project(out, k) + qs[k].events == qs0[k].events;
      NondecreasingLeft(qs0, pipe0, qs, out, k);
    }
    hide Nondecreasing, InOrder, Project;
    forall k | k in qs && qs[k].category == Market && qs[k].events != [] ensures k in Pipe(qs, heap, Market) {}
  }

  lemma ServedChronological(qs: map<nat, Queue>, time: int, saved: Option<Event>, k: nat, n: nat)
    requires Chronological(qs, time, saved) && k in qs && qs[k].category != Market && qs[k].events != []
    ensures Chronological(qs[k := Served(qs[k], n)], time, saved)
  {
  }

  // ----- what bus_dequeue may return -----

  // What a call finds and what it leaves: the queues, which of them are in their heaps, and the timers.
  datatype Desk = Desk(queues: map<nat, Queue>, heap: set<nat>, local: map<nat, Timer>, exchange: map<nat, Timer>)

  // The order in which the categories are served; market events come last, through the saved event.
  function Rank(c: Category): nat {
    match c
    case Execution => 0
    case Service => 1
    case Command => 2
    case Market => 3
  }

  // No queue of the same category has an older first event, or an equally old one and the smaller start_id.
  ghost predicate GoesFirst(qs: map<nat, Queue>, heap: set<nat>, k: nat) {
    && k in heap && k in qs && qs[k].events != []
    && forall j :: j in heap && j in qs && j != k && qs[j].category == qs[k].category && qs[j].events != [] ==>
         var a, b := qs[k].events[0].timestamp, qs[j].events[0].timestamp;
         a < b || (a == b && qs[k].id < qs[j].id)
  }

  // The categories of a rank below n have no event.
  ghost predicate NoneBefore(qs: map<nat, Queue>, heap: set<nat>, n: nat) {
    forall j :: j in heap && j in qs && Rank(qs[j].category) < n ==> qs[j].events == []
  }

  // But for the first event of queue k, if any, the queues of all categories but Market are as before.
  ghost predicate Left(qs: map<nat, Queue>, k: Option<nat>, qs': map<nat, Queue>) {
    qs'.Keys == qs.Keys && forall j :: j in qs && qs[j].category != Market ==>
      && qs'[j].category == qs[j].category
      && if k == Some(j) then qs[j].events != [] && qs'[j].events == qs[j].events[1..] else qs'[j] == qs[j]
  }

  // No timer may fire yet at the time of the market event s.
  ghost predicate TimersLater(d: Desk, s: Option<Event>) {
    s != None ==>
      && (forall k :: k in d.local ==> d.local[k].timeout > s.value.timestamp)
      && (s.value.tick ==> forall k :: k in d.exchange ==> d.exchange[k].timeout > s.value.timestamp)
  }

  // Timer key is the first one of the heap, and due at ts.
  ghost predicate FiresFirst(m: map<nat, Timer>, key: nat, t: Timer, ts: int) {
    && key in m && t == m[key] && t.timeout <= ts
    && forall k :: k in m && k != key ==> t.timeout < m[k].timeout || (t.timeout == m[k].timeout && t.id < m[k].id)
  }

  // It has left the heap or is set to its next time, with a start_id above all others.
  ghost predicate Rearmed(m: map<nat, Timer>, key: nat, m': map<nat, Timer>) {
    && key in m && (m[key].repeat == 0 ==> m' == m - {key})
    && (m[key].repeat != 0 ==>
          && m'.Keys == m.Keys && (forall k :: k in m && k != key ==> m'[k] == m[k] && m[k].id < m'[key].id)
          && m'[key].timeout == m[key].timeout + m[key].repeat && m'[key].repeat == m[key].repeat)
  }

  // An event of queue k, of any category but Market, is taken when no category before it has one.
  ghost predicate Supplied(d: Desk, k: nat, e: Event, qs': map<nat, Queue>) {
    && GoesFirst(d.queues, d.heap, k) && d.queues[k].category != Market && e == d.queues[k].events[0]
    && NoneBefore(d.queues, d.heap, Rank(d.queues[k].category)) && Left(d.queues, Some(k), qs')
  }

  // The part after the timers: an event of a queue, else the saved market event, else none.
  ghost predicate RightEvent(d: Desk, s: Option<Event>, r: Outcome, s': Option<Event>, qs': map<nat, Queue>) {
    match r
    case Fired(_, _, _) => false
    case Delivered(e) =>
      if NoneBefore(d.queues, d.heap, 3) then s == Some(e) && s' == None && Left(d.queues, None, qs')
      else s' == s && exists k :: Supplied(d, k, e, qs')
    case Nothing => NoneBefore(d.queues, d.heap, 3) && s == None && s' == None && Left(d.queues, None, qs')
  }

  // The answer r to a call that finds d and the market event s: a local timer that is due, else an
  // exchange timer that is due if s is a tick, else an event.
  ghost predicate Right(d: Desk, s: Option<Event>, r: Outcome, s': Option<Event>, d': Desk) {
    match r
    case Fired(Local, key, t) =>
      && s != None && FiresFirst(d.local, key, t, s.value.timestamp) && Rearmed(d.local, key, d'.local)
      && d'.exchange == d.exchange && s' == s && Left(d.queues, None, d'.queues)
    case Fired(Exchange, key, t) =>
      && s != None && s.value.tick && (forall k :: k in d.local ==> d.local[k].timeout > s.value.timestamp)
      && FiresFirst(d.exchange, key, t, s.value.timestamp) && Rearmed(d.exchange, key, d'.exchange)
      && d'.local == d.local && s' == s && Left(d.queues, None, d'.queues)
    case _ =>
      && TimersLater(d, s) && d'.local == d.local && d'.exchange == d.exchange
      && RightEvent(d, s, r, s', d'.queues)
  }

  // The queues that have an event: after the pending list has been emptied, those in the heaps.
  function Stocked(qs: map<nat, Queue>): set<nat> {
    set k | k in qs && qs[k].events != []
  }

  lemma SupplyLeast(d: Desk, pending: seq<nat>, counter: nat, k: nat, n: nat)
    requires Accounted(d.queues, d.heap, pending, counter) && k in d.heap && k in d.queues
    requires d.queues[k].category != Market
    requires LeastQueue(d.queues, Pipe(d.queues, d.heap, d.queues[k].category), k)
    requires NoneBefore(d.queues, d.heap, Rank(d.queues[k].category))
    ensures Supplied(d, k, d.queues[k].events[0], d.queues[k := Served(d.queues[k], n)])
  {
  }

  lemma RightSupplied(d: Desk, s: Option<Event>, k: nat, e: Event, qs': map<nat, Queue>)
    requires Supplied(d, k, e, qs')
    ensures RightEvent(d, s, Delivered(e), s, qs')
  {
    assert Rank(d.queues[k].category) < 3 && d.queues[k].events != [];
  }

  // When no other category has an event it is the turn of the saved one.
  lemma RightLast(d: Desk, s: Option<Event>)
    requires NoneBefore(d.queues, d.heap, 3)
    ensures RightEvent(d, s, if s == None then Nothing else Delivered(s.value), None, d.queues)
  {
  }

  lemma Ranks(qs: map<nat, Queue>, heap: set<nat>, pending: seq<nat>, counter: nat)
    requires Accounted(qs, heap, pending, counter)
    ensures NoneBefore(qs, heap, 0)
    ensures Pipe(qs, heap, Execution) == {} ==> NoneBefore(qs, heap, 1)
    ensures Pipe(qs, heap, Execution) == Pipe(qs, heap, Service) == {} ==> NoneBefore(qs, heap, 2)
    ensures NoneBefore(qs, heap, 3) <==>
      Pipe(qs, heap, Execution) == Pipe(qs, heap, Service) == Pipe(qs, heap, Command) == {}
  {
    forall j | j in heap ensures j in Pipe(qs, heap, qs[j].category) && qs[j].events != [] {}
    if NoneBefore(qs, heap, 3) {
      forall c: Category | c != Market ensures Pipe(qs, heap, c) == {} {
        assert forall j :: j in Pipe(qs, heap, c) ==> Rank(qs[j].category) < 3;
      }
    }
  }

  lemma FiredRight(m: map<nat, Timer>, counter: nat, key: nat, c: nat, ts: int)
    requires Numbered(m, counter) && counter <= c && LeastTimer(m, key) && Due(m, ts) > 0
    ensures FiresFirst(m, key, m[key], ts) && Rearmed(m, key, Refired(m, key, c))
  {
    DueLeast(m, key, ts);
    forall k | k in m && k != key ensures TimerLess(m[key], m[k]) { TimerTieBreak(m, key, counter, k); }
  }

  ghost predicate MarketSame(qs: map<nat, Queue>, qs': map<nat, Queue>) {
    forall j :: j in qs && qs[j].category == Market ==> j in qs' && qs'[j] == qs[j]
  }

  // Market queues make no difference to what is right but for the saved event.
  lemma RightBeforeFetch(d: Desk, f: Desk, counter: nat, s: Option<Event>, r: Outcome,
      s': Option<Event>, d': Desk)
    requires Right(f, s, r, s', d') && Accounted(f.queues, f.heap, [], counter)
    requires d.queues.Keys == f.queues.Keys && d.heap == Stocked(d.queues)
    requires d.local == f.local && d.exchange == f.exchange
    requires forall k :: k in d.queues ==>
      d.queues[k].category == f.queues[k].category && (d.queues[k].category != Market ==> d.queues[k] == f.queues[k])
    ensures Right(d, s, r, s', d')
  {
    forall k | k in d.queues && d.queues[k].category != Market ensures k in d.heap <==> k in f.heap {}
    forall n | n <= 3 ensures NoneBefore(d.queues, d.heap, n) <==> NoneBefore(f.queues, f.heap, n) {
      SameNone(d, f, n);
    }
    if r.Delivered? && !NoneBefore(d.queues, d.heap, 3) {
      var k :| Supplied(f, k, r.e, d'.queues);
      assert Supplied(d, k, r.e, d'.queues);
    }
  }

  lemma SameNone(d: Desk, f: Desk, n: nat)
    requires n <= 3 && d.queues.Keys == f.queues.Keys
    requires forall k :: k in d.queues ==>
      && d.queues[k].category == f.queues[k].category
      && (d.queues[k].category != Market ==> d.queues[k] == f.queues[k] && (k in d.heap <==> k in f.heap))
    ensures NoneBefore(d.queues, d.heap, n) <==> NoneBefore(f.queues, f.heap, n)
  {
    forall k | k in d.queues && Rank(d.queues[k].category) < n ensures d.queues[k].category != Market {}
  }

  lemma AllStocked(qs: map<nat, Queue>, heap: set<nat>, counter: nat)
    requires Accounted(qs, heap, [], counter)
    ensures heap == Stocked(qs)
  {
  }

  // What Fetch leaves: out has been popped from the market queues, and no other queue has changed.
  ghost predicate MarketPopped(qs: map<nat, Queue>, out: seq<(nat, Event)>, qs': map<nat, Queue>) {
    && qs'.Keys == qs.Keys
    && forall k {:trigger Project(out, k)} :: k in qs ==>
         if qs[k].category == Market
         then qs'[k].category == Market && Project(out, k) + qs'[k].events == qs[k].events
         else Project(out, k) == []
  }

  lemma FetchedOnlyMarket(d: Desk, f: Desk, out: seq<(nat, Event)>)
    requires InOrder(d.queues, Pipe(d.queues, d.heap, Market), f.queues, out)
    ensures d.queues.Keys == f.queues.Keys && MarketPopped(d.queues, out, f.queues)
    ensures forall k :: k in d.queues ==>
      d.queues[k].category == f.queues[k].category && (d.queues[k].category != Market ==> d.queues[k] == f.queues[k])
  {
    forall k | k in d.queues
      ensures d.queues[k].category == f.queues[k].category
      ensures d.queues[k].category != Market ==> d.queues[k] == f.queues[k] && Project(out, k) == []
    {
      assert Project(out, k) + f.queues[k].events == d.queues[k].events;
    }
  }

  lemma MarketStill(qs: map<nat, Queue>, out: seq<(nat, Event)>, qs1: map<nat, Queue>, qs2: map<nat, Queue>)
    requires MarketPopped(qs, out, qs1) && MarketSame(qs1, qs2) && qs2.Keys == qs1.Keys
    ensures MarketPopped(qs, out, qs2)
  {
    forall k | k in qs && qs[k].category == Market ensures qs2[k] == qs1[k] {
      assert Project(out, k) + qs1[k].events == qs[k].events;
    }
  }

  lemma RightKeys(d: Desk, s: Option<Event>, r: Outcome, s': Option<Event>, d': Desk)
    requires Right(d, s, r, s', d')
    ensures d'.queues.Keys == d.queues.Keys
  {
    if r.Delivered? && !NoneBefore(d.queues, d.heap, 3) {
      var k :| Supplied(d, k, r.e, d'.queues);
    }
  }

  // Where the market event s of a call comes from: it was saved, or it is the last one of out, which is
  // then the first market event popped that is not passed over.
  ghost predicate Saved(out: seq<(nat, Event)>, time: int, saved0: Option<Event>, stopped0: bool, s: Option<Event>,
      stopped: bool)
  {
    if saved0 != None then out == [] && s == saved0 && stopped == stopped0
    else if s == None then Skipped(out, time, stopped0, stopped)
    else
      && out != [] && Skipped(out[..|out| - 1], time, stopped0, stopped) && !Late(out[|out| - 1].1, time)
      && s == Some(Current(out[|out| - 1].1, time))
  }

  // Where the next event comes from.
  datatype Turn = LocalTimer | ExchangeTimer | PipeOf(c: Category) | SavedEvent | Idle

  class Bus {
    var queues: map<nat, Queue>
    // The members of the four heaps queue_heap, told apart by the category of the queue.
    var heap: set<nat>
    // pending_queue, timer_heap[CLOCK_LOCAL] and timer_heap[CLOCK_EXCHANGE]
    var pending: seq<nat>
    var local: map<nat, Timer>
    var exchange: map<nat, Timer>
    var counter: nat
    var time: int
    var saved: Option<Event>
    var stopped: bool

    ghost predicate Valid()
      reads this
    {
      Accounted(queues, heap, pending, counter) && Numbered(local, counter) && Numbered(exchange, counter)
    }

    // What has to come before the saved event: all events of the other categories, and the firings of
    // local timers, and for a tick also of exchange timers, until its time.
    ghost function Work(): nat
      reads this
    {
      Backlog(queues, false) +
      if saved == None then 0
      else Due(local, saved.value.timestamp) + if saved.value.tick then Due(exchange, saved.value.timestamp) else 0
    }

    ghost function Now(): Desk
      reads this
    {
      Desk(queues, heap, local, exchange)
    }

    // bus_init
    constructor (start: int)
      ensures Valid() && queues == map[] && saved == None && time == start && !stopped
    {
      queues, heap, pending, counter, time, saved, stopped := map[], {}, [], 1, start, None, false;
      local, exchange := map[], map[];
    }

    // event_pop_form_pipe: takes the first event of the least queue and puts the queue behind the others.
    method PopFromPipe(c: Category) returns (r: Option<Event>, ghost k: nat)
      requires Valid()
      modifies this`queues, this`heap, this`counter
      ensures Valid()
      ensures if old(Pipe(queues, heap, c)) == {} then r == None && unchanged(this)
              else && k in old(heap) && LeastQueue(old(queues), old(Pipe(queues, heap, c)), k)
                   && r == Some(old(queues[k].events[0]))
                   && queues == old(queues)[k := Served(old(queues[k]), old(counter))]
                   && heap == if old(|queues[k].events|) > 1 then old(heap) else old(heap) - {k}
    {
      hide Accounted, Numbered;
      CounterGrows(local, exchange, counter, counter + 1);
      HeapMembers(queues, heap, pending, counter);
      var pipe := Pipe(queues, heap, c);
      k := 0;
      if pipe == {} { return None, 0; }
      ghost var some := SomeLeastQueue(queues, pipe);
      var node :| node in pipe && LeastQueue(queues, pipe, node);
      k := node;
      ServedAccounted(queues, heap, pending, counter, node);
      heap := heap - {node};
      var q := queues[node];
      r := Some(q.events[0]);
      q := q.(events := q.events[1..]);
      if q.events != [] {
        q := q.(id := counter);
        counter := counter + 1;
        heap := heap + {node};
      }
      queues := queues[node := q];
      assert q.events != [] ==> heap == old(heap);
    }

    // timer_heap_pop: takes the least timer; one that repeats goes back with its next time.
    method PopTimer(clock: Clock) returns (key: nat, t: Timer)
      requires Valid() && (if clock == Local then local else exchange) != map[]
      modifies this`local, this`exchange, this`counter
      ensures Valid() && LeastTimer(old(if clock == Local then local else exchange), key)
      ensures t == old(if clock == Local then local else exchange)[key]
      ensures (if clock == Local then local else exchange) ==
        Refired(old(if clock == Local then local else exchange), key, old(counter))
      ensures if clock == Local then exchange == old(exchange) else local == old(local)
      ensures counter == old(counter) + if t.repeat != 0 then 1 else 0
    {
      hide Accounted, Numbered, LeastTimer, Refired;
      var m := if clock == Local then local else exchange;
      CounterGrows(local, exchange, counter, counter + 1);
      QueuesGrow(queues, heap, pending, counter);
      ghost var some := SomeLeastTimer(m);
      key :| key in m && LeastTimer(m, key);
      RefiredNumbered(m, key, counter);
      RefiredStores(m, key, counter);
      t := m[key];
      var rest := m - {key};
      if t.repeat != 0 {
        rest := rest[key := t.(id := counter, timeout := t.timeout + t.repeat)];
        counter := counter + 1;
      }
      if clock == Local { local := rest; } else { exchange := rest; }
    }

    // The timers that bus_timer_dequeue returns when it is called n times, or until it finds none.
    method PopTimers(clock: Clock, n: nat) returns (out: seq<(nat, Timer)>)
      requires Valid()
      modifies this`local, this`exchange, this`counter
      ensures Valid() && |out| <= n
      ensures |out| < n ==> (if clock == Local then local else exchange) == map[]
      ensures Scheduled(old(if clock == Local then local else exchange),
                        if clock == Local then local else exchange, out)
      ensures FiredInOrder(out, if clock == Local then local else exchange)
      ensures if clock == Local then exchange == old(exchange) else local == old(local)
    {
      hide Accounted, Numbered, LeastTimer, Refired, Scheduled, FiredInOrder;
      out := [];
      ghost var m0 := if clock == Local then local else exchange;
      ScheduledStart(m0);
      while |out| < n && (if clock == Local then local else exchange) != map[]
        invariant Valid() && |out| <= n
        invariant Scheduled(m0, if clock == Local then local else exchange, out)
        invariant FiredInOrder(out, if clock == Local then local else exchange)
        invariant if clock == Local then exchange == old(exchange) else local == old(local)
        decreases n - |out|
      {
        ghost var m, c := if clock == Local then local else exchange, counter;
        var key, t := PopTimer(clock);
        ScheduledStep(m0, m, out, key, c);
        FiredInOrderStep(m, out, key, c);
        out := out + [(key, t)];
      }
    }

    // check_pending_queue
    method CheckPending()
      requires Valid()
      modifies this`queues, this`heap, this`pending, this`counter
      ensures Valid() && pending == []
      ensures OnlyIds(old(queues), old(heap), queues, heap)
      ensures Arrived(old(queues), old(pending), old(counter), queues)
      ensures forall i :: 0 <= i < |old(pending)| ==>
        old(pending)[i] in queues && queues[old(pending)[i]].id == old(counter) + i
      ensures counter == old(counter) + |old(pending)|
      ensures old(Chronological(queues, time, saved)) ==> Chronological(queues, time, saved)
    {
      hide Accounted, Numbered, OnlyIds, Backlog, Arrived, Coming;
      ComingStart(queues, heap, pending, counter);
      ghost var qs0, heap0, pending0, c0 := queues, heap, pending, counter;
      ghost var i: nat := 0;
      while pending != []
        invariant Coming(qs0, heap0, pending0, c0, i, queues, heap, pending, counter)
        invariant Numbered(local, counter) && Numbered(exchange, counter)
        decreases |pending|
      {
        var k := pending[0];
        ComingStep(qs0, heap0, pending0, c0, i, queues, heap, pending, counter);
        CounterGrows(local, exchange, counter, counter + 1);
        i := i + 1;
        pending := pending[1..];
        Readd(k);
      }
      ComingEnd(qs0, heap0, pending0, c0, i, queues, heap, pending, counter);
      if old(Chronological(queues, time, saved)) { PendingChronological(qs0, heap0, queues, heap, time, saved); }
    }

    // bus_add_queue, for a queue of this bus
    method Readd(k: nat)
      requires k in queues
      modifies this`queues, this`heap, this`counter
      ensures queues == old(queues)[k := old(queues[k]).(id := old(counter))] && counter == old(counter) + 1
      ensures heap == if queues[k].events == [] then old(heap) else old(heap) + {k}
    {
      queues := queues[k := queues[k].(id := counter)];
      counter := counter + 1;
      if queues[k].events == [] { return; }
      heap := heap + {k};
    }

    // bus_add_queue, for a queue that belongs to no bus yet
    method AddQueue(k: nat, q: Queue)
      requires Valid() && k !in queues
      modifies this`queues, this`heap, this`counter
      ensures Valid() && queues == old(queues)[k := q.(id := old(counter))] && pending == old(pending)
    {
      hide Accounted, Numbered;
      CounterGrows(local, exchange, counter, counter + 1);
      AddedAccounted(queues, heap, pending, counter, k, q);
      queues := queues[k := q];
      Readd(k);
      assert queues == old(queues)[k := q.(id := old(counter))];
    }

    // event_queue_push: 0 or, if the queue is full, -1
    method Push(k: nat, e: Event) returns (ret: int)
      requires Valid() && k in queues && queues[k].capacity >= 2
      modifies this`queues, this`pending
      ensures Valid()
      ensures if |old(queues[k].events)| < old(queues[k].capacity) - 1
              then ret == 0 && queues == old(queues)[k := old(queues[k]).(events := old(queues[k].events) + [e])]
              else ret == -1 && queues == old(queues)
      ensures pending == old(pending) + if old(queues[k].events) == [] then [k] else []
      ensures old(queues[k].events) == [] ==> ret == 0
      ensures k in heap ==>
        k in queues && old(queues[k].events) != [] && queues[k].events != [] &&
        queues[k].events[0] == old(queues[k].events[0])
    {
      hide Numbered;
      var q := queues[k];
      var is_empty := q.events == [];
      if |q.events| < q.capacity - 1 {
        queues := queues[k := q.(events := q.events + [e])];
        ret := 0;
      } else {
        ret := -1;
      }
      if is_empty { pending := pending + [k]; }
    }

    // bus_add_timer
    method AddTimer(clock: Clock, key: nat, t: Timer)
      requires Valid() && key !in (if clock == Local then local else exchange)
      modifies this`local, this`exchange, this`counter
      ensures Valid()
      ensures local == if clock == Local then old(local)[key := t.(id := old(counter))] else old(local)
      ensures exchange == if clock == Local then old(exchange) else old(exchange)[key := t.(id := old(counter))]
      ensures counter == old(counter) + 1
    {
      if clock == Local {
        local := local[key := t.(id := counter)];
      } else {
        exchange := exchange[key := t.(id := counter)];
      }
      counter := counter + 1;
    }

    // The market part of bus_simualtion_dequeue: fetches the next market event, unless one is saved.
    // The simulator's stop event and plain events that come too late are skipped; out are the events
    // popped, of which the last one is saved.
    method Fetch() returns (ghost out: seq<(nat, Event)>)
      requires Valid()
      modifies this`queues, this`heap, this`counter, this`saved, this`stopped
      ensures Valid() && InOrder(old(queues), old(Pipe(queues, heap, Market)), queues, out)
      ensures Fair(old(queues), old(Pipe(queues, heap, Market)), out)
      ensures AllTimely(old(queues), old(Pipe(queues, heap, Market))) ==>
        Timely(queues, Pipe(queues, heap, Market), out)
      ensures Backlog(queues, false) == old(Backlog(queues, false)) &&
        Backlog(queues, true) + |out| == old(Backlog(queues, true))
      ensures old(saved) != None ==> unchanged(this) && out == []
      ensures old(saved) == None && saved == None ==>
        Pipe(queues, heap, Market) == {} && Skipped(out, time, old(stopped), stopped)
      ensures old(saved) == None && saved != None ==>
        && out != [] && Skipped(out[..|out| - 1], time, old(stopped), stopped) && !Late(out[|out| - 1].1, time)
        && saved == Some(Current(out[|out| - 1].1, time))
      ensures pending == [] && old(Chronological(queues, time, saved)) ==> Chronological(queues, time, saved)
    {
      hide Accounted, Numbered, Backlog, Chronological, Timely;
      hide InOrder, AllTimely, Fair, OutTimely, Nondecreasing, Ranked;
      ghost var qs0, pipe0, before := queues, Pipe(queues, heap, Market), stopped;
      out := [];
      MergingStart(queues, heap, pending, counter, Market);
      ghost var timely := AllTimely(qs0, pipe0);
      while saved == None && Pipe(queues, heap, Market) != {}
        invariant Accounted(queues, heap, pending, counter) && Numbered(local, counter) && Numbered(exchange, counter)
        invariant Merging(qs0, pipe0, queues, Pipe(queues, heap, Market), out)
        invariant timely ==> Timely(queues, Pipe(queues, heap, Market), out)
        invariant Backlog(queues, false) == old(Backlog(queues, false)) &&
          Backlog(queues, true) + |out| == old(Backlog(queues, true))
        invariant old(saved) != None ==> unchanged(this)
        invariant saved == None ==> Skipped(out, time, before, stopped)
        invariant old(saved) == None && saved != None ==>
          && out != [] && Skipped(out[..|out| - 1], time, before, stopped) && !Late(out[|out| - 1].1, time)
          && saved == Some(Current(out[|out| - 1].1, time))
        decreases Backlog(queues, true)
      {
        var e; ghost var out';
        e, out' := MergeStep(Market, qs0, pipe0, out, timely);
        ghost var was := stopped;
        var again, e' := Sift(e);
        if again {
          SkipStep(out, out', time, before, was, stopped);
        } else {
          saved := Some(e');
        }
        out := out';
      }
      if pending == [] && old(saved) == None && old(Chronological(queues, time, saved)) {
        FetchedChronological(qs0, pipe0, queues, heap, counter, time, out, saved);
      }
    }

    // Whether to go back to the label again, or else the event to save.
    method Sift(e: Event) returns (again: bool, e': Event)
      modifies this`stopped
      ensures again <==> Late(e, time)
      ensures stopped == (old(stopped) || e.kind == SimulatorStop)
      ensures !again ==> e' == Current(e, time)
    {
      e' := e;
      if e.kind == SimulatorStop {
        stopped := true;
        return true, e;
      }
      if e.timestamp < time {
        if e.kind != QueueClose && e.kind != QueueOpen {
          if e.kind != SimulatorProgress {
            return true, e;
          }
        }
        e' := e.(timestamp := time);
      }
      again := false;
    }

    ghost function Next(): Turn
      reads this
    {
      if saved != None && Due(local, saved.value.timestamp) > 0 then LocalTimer
      else if saved != None && saved.value.tick && Due(exchange, saved.value.timestamp) > 0 then ExchangeTimer
      else NextEvent()
    }

    ghost function NextEvent(): Turn
      reads this
    {
      if Pipe(queues, heap, Execution) != {} then PipeOf(Execution)
      else if Pipe(queues, heap, Service) != {} then PipeOf(Service)
      else if Pipe(queues, heap, Command) != {} then PipeOf(Command)
      else if saved != None then SavedEvent
      else Idle
    }

    // timer_heap_peek
    method PeekTimer(m: map<nat, Timer>) returns (t: Timer, ghost key: nat)
      requires m != map[]
      ensures LeastTimer(m, key) && t == m[key]
    {
      ghost var some := SomeLeastTimer(m);
      var node :| node in m && LeastTimer(m, node);
      t, key := m[node], node;
    }

    // Fires the least timer of a clock if it is due at the time of the saved event.
    method FireIfDue(clock: Clock) returns (r: Outcome)
      requires Valid() && saved != None
      modifies this`local, this`exchange, this`counter
      ensures Valid()
      ensures var ts := saved.value.timestamp;
        if old(Due(if clock == Local then local else exchange, ts)) == 0 then r == Nothing && unchanged(this)
        else && r.Fired? && r.clock == clock && LeastTimer(old(if clock == Local then local else exchange), r.key)
             && r.timer == old(if clock == Local then local else exchange)[r.key]
             && (if clock == Local then local else exchange) ==
                Refired(old(if clock == Local then local else exchange), r.key, old(counter))
             && Due(if clock == Local then local else exchange, ts) ==
                old(Due(if clock == Local then local else exchange, ts)) - 1
             && (if clock == Local then exchange == old(exchange) else local == old(local))
    {
      var m := if clock == Local then local else exchange;
      ghost var ts := saved.value.timestamp;
      DueNone(m, ts);
      if m == map[] { return Nothing; }
      var t; ghost var key;
      t, key := PeekTimer(m);
      DueLeast(m, key, ts);
      if t.timeout <= saved.value.timestamp {
        ghost var c := counter;
        var key, u := PopTimer(clock);
        RefiredDue(m, key, c, ts);
        return Fired(clock, key, u);
      }
      return Nothing;
    }

    // Event r is the first one of the least queue in the heap of category c, which has been served.
    ghost predicate Took(qs0: map<nat, Queue>, heap0: set<nat>, c: Category, r: Outcome)
      reads this`queues
    {
      r.Delivered? && exists k, n ::
        k in qs0 && k in Pipe(qs0, heap0, c) && (forall i :: i in Pipe(qs0, heap0, c) ==> qs0[i].events != [])
        && LeastQueue(qs0, Pipe(qs0, heap0, c), k) && r.e == qs0[k].events[0] && queues == qs0[k := Served(qs0[k], n)]
    }

    method ServePipe(c: Category) returns (r: Outcome)
      requires Valid() && c != Market && Pipe(queues, heap, c) != {}
      modifies this`queues, this`heap, this`counter
      ensures Valid() && r.Delivered? && Took(old(queues), old(heap), c, r)
      ensures MarketSame(old(queues), queues)
      ensures old(NoneBefore(queues, heap, Rank(c))) ==> RightEvent(old(Now()), saved, r, saved, queues)
      ensures Backlog(queues, false) == old(Backlog(queues, false)) - 1
      ensures old(Chronological(queues, time, saved)) ==> Chronological(queues, time, saved)
    {
      hide Chronological, Numbered, Backlog, Supplied, NoneBefore, RightEvent;
      ghost var qs, n, d := queues, counter, Now();
      var e; ghost var k;
      e, k := PopFromPipe(c);
      if old(Chronological(queues, time, saved)) { ServedChronological(qs, time, saved, k, n); }
      BacklogUpdate(qs, false, k, queues[k]);
      if NoneBefore(d.queues, d.heap, Rank(c)) {
        SupplyLeast(d, pending, n, k, n);
        RightSupplied(d, saved, k, e.value, queues);
      }
      return Delivered(e.value);
    }

    // The part of bus_simualtion_dequeue after the timers.
    method ServeEvents() returns (r: Outcome)
      requires Valid()
      modifies this`queues, this`heap, this`counter, this`saved
      ensures Valid()
      ensures old(Chronological(queues, time, saved)) ==> Chronological(queues, time, saved)
      ensures match old(NextEvent())
        case PipeOf(c) =>
          && r.Delivered? && Took(old(queues), old(heap), c, r)
          && saved == old(saved) && Backlog(queues, false) == old(Backlog(queues, false)) - 1
        case SavedEvent => r == Delivered(old(saved).value) && saved == None && queues == old(queues)
        case _ => r == Nothing && saved == None == old(saved) && queues == old(queues)
      ensures MarketSame(old(queues), queues) && RightEvent(old(Now()), old(saved), r, saved, queues)
    {
      Ranks(queues, heap, pending, counter);
      hide Accounted, Numbered, Backlog, Took, NoneBefore, Supplied, RightEvent;
      if Pipe(queues, heap, Execution) != {} { r := ServePipe(Execution); return; }
      if Pipe(queues, heap, Service) != {} { r := ServePipe(Service); return; }
      if Pipe(queues, heap, Command) != {} { r := ServePipe(Command); return; }
      RightLast(Now(), saved);
      if saved != None {
        var e := saved.value;
        saved := None;
        return Delivered(e);
      }
      return Nothing;
    }

    // The timers' part.
    method ServeTimers() returns (r: Outcome)
      requires Valid()
      modifies this`local, this`exchange, this`counter
      ensures Valid()
      ensures r == Nothing ==> unchanged(this) && TimersLater(old(Now()), saved) && old(Next()) == old(NextEvent())
      ensures r != Nothing ==>
        && old(Next()) == (if r.Fired? && r.clock == Local then LocalTimer else ExchangeTimer)
        && r.Fired? && Right(old(Now()), saved, r, saved, Now()) && Work() == old(Work()) - 1
        && var m := if r.clock == Local then old(local) else old(exchange);
           && LeastTimer(m, r.key) && r.timer == m[r.key]
           && (if r.clock == Local then local else exchange) == Refired(m, r.key, old(counter))
           && (if r.clock == Local then exchange == old(exchange) else local == old(local))
    {
      hide Accounted, Numbered, Backlog, Refired, LeastTimer, FiresFirst, Rearmed, NextEvent;
      r := Nothing;
      ghost var c := counter;
      if saved != None {
        DueNone(local, saved.value.timestamp);
        r := FireIfDue(Local);
        if r != Nothing {
          FiredRight(old(local), c, r.key, c, saved.value.timestamp);
          return;
        }
        if saved.value.tick {
          DueNone(exchange, saved.value.timestamp);
          r := FireIfDue(Exchange);
          if r != Nothing { FiredRight(old(exchange), c, r.key, c, saved.value.timestamp); }
        }
      }
    }

    // bus_simualtion_dequeue from the label next on
    method Serve() returns (r: Outcome)
      requires Valid()
      modifies this`queues, this`heap, this`counter, this`local, this`exchange, this`saved
      ensures Valid()
      ensures old(Chronological(queues, time, saved)) ==> Chronological(queues, time, saved)
      ensures match old(Next())
        case LocalTimer =>
          && r.Fired? && r.clock == Local && LeastTimer(old(local), r.key) && r.timer == old(local)[r.key]
          && local == Refired(old(local), r.key, old(counter)) && exchange == old(exchange) && queues == old(queues)
        case ExchangeTimer =>
          && r.Fired? && r.clock == Exchange && LeastTimer(old(exchange), r.key) && r.timer == old(exchange)[r.key]
          && exchange == Refired(old(exchange), r.key, old(counter)) && local == old(local) && queues == old(queues)
        case PipeOf(c) =>
          r.Delivered? && Took(old(queues), old(heap), c, r) && local == old(local) && exchange == old(exchange)
        case SavedEvent =>
          && r == Delivered(old(saved).value) && queues == old(queues)
          && local == old(local) && exchange == old(exchange)
        case Idle => r == Nothing && queues == old(queues) && local == old(local) && exchange == old(exchange)
      ensures saved == if old(Next()) == SavedEvent then None else old(saved)
      ensures Work() == if old(Next()) in {SavedEvent, Idle} then Backlog(old(queues), false) else old(Work()) - 1
      ensures MarketSame(old(queues), queues) && Right(old(Now()), old(saved), r, saved, Now())
    {
      hide Accounted, Numbered, Backlog, Due, Refired, LeastTimer, FiresFirst, Rearmed, RightEvent, Took, NoneBefore;
      r := ServeTimers();
      if r != Nothing { return; }
      r := ServeEvents();
    }

    lemma NothingLeft()
      requires Valid() && pending == []
      ensures Next() in {SavedEvent, Idle} <==> Work() == 0
      ensures Next() == Idle ==> saved == None
    {
      BacklogNone(queues, false);
      if Backlog(queues, false) == 0 {
        assert forall k :: k in heap ==> Share(queues[k], false) == 0;
      } else {
        var k :| k in queues && Share(queues[k], false) != 0;
        assert k in Pipe(queues, heap, queues[k].category);
      }
    }

    // Serve, with the pending list empty: the work that goes before the saved event shrinks.
    method ServeNow() returns (r: Outcome)
      requires Valid() && pending == []
      modifies this`queues, this`heap, this`counter, this`local, this`exchange, this`saved
      ensures Valid()
      ensures old(saved) != None && old(Work()) > 0 ==> r != Nothing && saved == old(saved) && Work() == old(Work()) - 1
      ensures old(saved) != None && old(Work()) == 0 ==>
        r == Delivered(old(saved).value) && saved == None && Quiet(old(saved).value) && Backlog(queues, false) == 0
      ensures r.Delivered? && Backlog(queues, false) == old(Backlog(queues, false)) ==> saved == None && Quiet(r.e)
      ensures r == Nothing && old(Pipe(queues, heap, Market)) == {} ==>
        old(saved) == None && forall k :: k in queues ==> queues[k].events == []
      ensures r == Nothing ==> old(saved) == None
      ensures old(Chronological(queues, time, saved)) ==> Chronological(queues, time, saved)
      ensures old(Chronological(queues, time, saved)) ==>
        r.Delivered? && Backlog(queues, false) == old(Backlog(queues, false)) ==>
        Earliest(queues, time, r.e)
      ensures MarketSame(old(queues), queues) && Right(old(Now()), old(saved), r, saved, Now())
    {
      hide Accounted, Numbered, Backlog, Due, Took, Earliest, Refired, LeastTimer, Right, MarketSame;
      NothingLeft();
      ghost var b := Work() == 0 && saved != None;
      if b { QuietNow(); }
      if Next() == Idle && Pipe(queues, heap, Market) == {} { AllEmpty(); }
      r := Serve();
    }

    // bus_dequeue up to the label next: the pending queues are added, and a market event is saved.
    method FetchNext() returns (ghost qs: map<nat, Queue>, ghost out: seq<(nat, Event)>)
      requires Valid()
      modifies this`queues, this`heap, this`pending, this`counter, this`saved, this`stopped
      ensures Valid() && pending == [] && Arrived(old(queues), old(pending), old(counter), qs)
      ensures InOrder(qs, Pipe(qs, Stocked(qs), Market), queues, out) && Fair(qs, Pipe(qs, Stocked(qs), Market), out)
      ensures Saved(out, time, old(saved), old(stopped), saved, stopped)
      ensures if old(saved) != None then saved == old(saved) else saved == None ==> Pipe(queues, heap, Market) == {}
      ensures Backlog(queues, false) == old(Backlog(queues, false))
      ensures old(Chronological(queues, time, saved)) ==> Chronological(queues, time, saved)
    {
      hide Accounted, Numbered, Backlog, InOrder, Fair, AllTimely, Timely, Skipped, Chronological, Arrived, Late;
      CheckPending();
      qs := queues;
      AllStocked(queues, heap, counter);
      out := Fetch();
    }

    // bus_dequeue in simulation mode
    // qs are the queues with the pending ones added, out the market events popped, and s the market event
    // that the others are held against.
    method Dequeue()
      returns (r: Outcome, ghost qs: map<nat, Queue>, ghost out: seq<(nat, Event)>, ghost s: Option<Event>)
      requires Valid()
      modifies this
      ensures Valid() && pending == []
      ensures old(saved) != None && old(Work()) > 0 ==> r != Nothing && saved == old(saved) && Work() == old(Work()) - 1
      ensures old(saved) != None && old(Work()) == 0 ==>
        r == Delivered(old(saved).value) && saved == None && Quiet(old(saved).value) && Backlog(queues, false) == 0
      ensures r.Delivered? && Backlog(queues, false) == old(Backlog(queues, false)) ==> saved == None && Quiet(r.e)
      ensures old(saved) == None && r == Nothing ==> forall k :: k in queues ==> queues[k].events == []
      ensures old(Chronological(queues, time, saved)) ==> Chronological(queues, time, saved)
      ensures old(Chronological(queues, time, saved)) ==>
        r.Delivered? && Backlog(queues, false) == old(Backlog(queues, false)) ==>
        Earliest(queues, time, r.e)
      ensures Arrived(old(queues), old(pending), old(counter), qs)
      ensures Fair(qs, Pipe(qs, Stocked(qs), Market), out) && MarketPopped(qs, out, queues)
      ensures Saved(out, time, old(saved), old(stopped), s, stopped)
      ensures Right(Desk(qs, Stocked(qs), old(local), old(exchange)), s, r, saved, Now())
    {
      hide Accounted, Numbered, Backlog, Due, InOrder, Fair, Earliest, Right, Saved, Arrived, Chronological, Quiet;
      hide MarketPopped, MarketSame, Skipped;
      qs, out := FetchNext();
      s := saved;
      ghost var d, f, c := Desk(qs, Stocked(qs), local, exchange), Now(), counter;
      FetchedOnlyMarket(d, f, out);
      r := ServeNow();
      RightKeys(f, s, r, saved, Now());
      MarketStill(qs, out, f.queues, queues);
      RightBeforeFetch(d, f, c, s, r, saved, Now());
    }

    lemma QuietNow()
      requires saved != None && Work() == 0
      ensures Quiet(saved.value)
    {
      BacklogNone(queues, false);
      DueNone(local, saved.value.timestamp);
      DueNone(exchange, saved.value.timestamp);
      forall k | k in queues && queues[k].category != Market ensures queues[k].events == [] {
        assert Share(queues[k], false) == 0;
      }
    }

    lemma AllEmpty()
      requires Valid() && pending == [] && Next() == Idle && Pipe(queues, heap, Market) == {}
      ensures forall k :: k in queues ==> queues[k].events == []
    {
      assert forall c: Category :: Pipe(queues, heap, c) == {};
      forall k | k in queues && queues[k].events != [] ensures false { InItsPipe(k); }
    }

    // Main theorem: with no new input a saved market event is returned after exactly Work() further
    // calls, and then no event of another category is queued and no timer is due at its time.
    method Release() returns (e: Event, calls: nat)
      requires Valid() && saved != None
      modifies this
      ensures Valid() && e == old(saved).value && saved == None && calls == old(Work()) + 1
      ensures Quiet(e) && (old(Chronological(queues, time, saved)) ==> Earliest(queues, time, e))
    {
      hide Accounted, Numbered, Backlog, Due, Quiet, Chronological, Earliest, Right, Saved, Arrived, MarketPopped, Fair;
      calls := 0;
      var r := Nothing;
      while saved != None
        invariant Valid() && (saved != None ==> saved == old(saved) && calls + Work() == old(Work()))
        invariant saved == None ==>
          r == Delivered(old(saved).value) && calls == old(Work()) + 1 && Quiet(old(saved).value)
        invariant old(Chronological(queues, time, saved)) ==>
          if saved != None then Chronological(queues, time, saved) else Earliest(queues, time, r.e)
        decreases if saved == None then 0 else Work() + 1
      {
        ghost var qs, out, s;
        r, qs, out, s := Dequeue();
        calls := calls + 1;
      }
      e := r.e;
    }

    // Nothing goes before market event e any more.
    ghost predicate Quiet(e: Event)
      reads this
    {
      && (forall k :: k in queues && queues[k].category != Market ==> queues[k].events == [])
      && (forall k :: k in local ==> local[k].timeout > e.timestamp)
      && (e.tick ==> forall k :: k in exchange ==> exchange[k].timeout > e.timestamp)
    }

    lemma InItsPipe(k: nat)
      requires Valid() && k in queues && queues[k].events != [] && k !in pending
      ensures k in Pipe(queues, heap, queues[k].category)
    {
    }

    lemma MergeDone(qs0: map<nat, Queue>, pipe0: set<nat>, c: Category, out: seq<(nat, Event)>)
      requires Valid() && InOrder(qs0, pipe0, queues, out) && Pipe(queues, heap, c) == {}
      requires forall k :: k in pipe0 ==> k in qs0 && k !in pending && qs0[k].category == c
      ensures forall k :: k in pipe0 ==> Project(out, k) == qs0[k].events
      ensures forall k :: k in qs0 && k !in pipe0 ==> Project(out, k) == []
    {
      forall k | k in qs0 ensures Project(out, k) == if k in pipe0 then qs0[k].events else [] {
        assert Project(out, k) + queues[k].events == qs0[k].events;
        if k in pipe0 && queues[k].events != [] { InItsPipe(k); }
      }
    }

    method MergeStep(c: Category, ghost qs0: map<nat, Queue>, ghost pipe0: set<nat>, ghost out: seq<(nat, Event)>,
        ghost timely: bool)
      returns (e: Event, ghost out': seq<(nat, Event)>)
      requires Valid() && Pipe(queues, heap, c) != {} && Merging(qs0, pipe0, queues, Pipe(queues, heap, c), out)
      requires timely ==> Timely(queues, Pipe(queues, heap, c), out)
      modifies this`queues, this`heap, this`counter
      ensures Valid() && Merging(qs0, pipe0, queues, Pipe(queues, heap, c), out')
      ensures timely ==> Timely(queues, Pipe(queues, heap, c), out')
      ensures |out'| == |out| + 1 && out'[..|out|] == out && out'[|out|].1 == e
      ensures Backlog(queues, c == Market) == old(Backlog(queues, c == Market)) - 1
      ensures Backlog(queues, c != Market) == old(Backlog(queues, c != Market))
    {
      hide Accounted, Numbered, Backlog, Merging, Timely;
      ghost var n, qs, hp := counter, queues, heap;
      var r; ghost var k;
      r, k := PopFromPipe(c);
      MergingStep(qs0, pipe0, qs, hp, pending, n, c, out, k);
      if timely { TimelyStep(qs, hp, heap, c, out, k, n); }
      BacklogUpdate(qs, true, k, queues[k]);
      BacklogUpdate(qs, false, k, queues[k]);
      e := r.value;
      out' := out + [(k, e)];
    }

    // Main theorem on the merge: what is popped from a pipe until it is empty is an interleaving of its
    // queues, each in order, and is in order of time if each queue is.
    method Merge(c: Category) returns (ghost out: seq<(nat, Event)>)
      requires Valid()
      modifies this`queues, this`heap, this`counter
      ensures Valid() && Pipe(queues, heap, c) == {}
      ensures forall k :: k in old(Pipe(queues, heap, c)) ==> Project(out, k) == old(queues[k].events)
      ensures forall k :: k in old(queues) && k !in old(Pipe(queues, heap, c)) ==> Project(out, k) == []
      ensures Fair(old(queues), old(Pipe(queues, heap, c)), out)
      ensures AllTimely(old(queues), old(Pipe(queues, heap, c))) ==> OutTimely(out)
    {
      out := [];
      MergingStart(queues, heap, pending, counter, c);
      ghost var qs0, pipe0 := queues, Pipe(queues, heap, c);
      assert forall k :: k in pipe0 ==> k !in pending && qs0[k].category == c;
      ghost var timely := AllTimely(qs0, pipe0);
      while Pipe(queues, heap, c) != {}
        invariant Accounted(queues, heap, pending, counter) && Numbered(local, counter) && Numbered(exchange, counter)
        invariant Merging(qs0, pipe0, queues, Pipe(queues, heap, c), out)
        invariant timely ==> Timely(queues, Pipe(queues, heap, c), out)
        decreases Backlog(queues, true) + Backlog(queues, false)
      {
        var e;
        e, out := MergeStep(c, qs0, pipe0, out, timely);
      }
      MergeDone(qs0, pipe0, c, out);
    }
  }
}
