// WorkQueue.cpp: a queue of work items that may queue more work while they run.
module WorkQueue {
  import opened Common

  type Item = nat

  const QUEUE_LENGTH: nat := 1024

  // ---------------------------------------------------------------- the queue as a value

  // accepted: every item stored since the last clear, in order; the first `start` of them have been
  // dequeued. running: the items dequeued and not yet deleted; an invocation may dequeue again, so
  // they nest. The last three fields are histories.
  datatype Queue = Queue(accepted: seq<Item>, start: nat, frozen: bool, running: seq<Item>,
                         invoked: seq<Item>, deleted: seq<Item>, submitted: seq<Item>)

  const EMPTY: Queue := Queue([], 0, false, [], [], [], [])

  // Finish is the end of the innermost invocation.
  datatype Op = Submit(item: Item) | Begin | Finish | Clear | SetFrozen(frozen: bool)

  predicate Enabled(q: Queue, op: Op) {
    match op
    case Submit(_) => |q.accepted| < QUEUE_LENGTH
    case Begin => q.start < |q.accepted|
    case Finish => q.running != []
    case Clear => true
    case SetFrozen(_) => true
  }

  function Pending(q: Queue): seq<Item> {
    if q.start <= |q.accepted| then q.accepted[q.start..] else []
  }

  function Apply(q: Queue, op: Op): Queue
    requires Enabled(q, op)
  {
    match op
    case Submit(item) =>
      if q.frozen then q.(deleted := q.deleted + [item], submitted := q.submitted + [item])
      else q.(accepted := q.accepted + [item], submitted := q.submitted + [item])
    case Begin =>
      var item := q.accepted[q.start];
      q.(start := q.start + 1, running := q.running + [item], invoked := q.invoked + [item])
    case Finish =>
      var last := |q.running| - 1;
      q.(running := q.running[..last], deleted := q.deleted + [q.running[last]])
    case Clear => q.(accepted := [], start := 0, invoked := [], deleted := q.deleted + Pending(q))
    case SetFrozen(frozen) => q.(frozen := frozen)
  }

  // Invoked items are the first accepted ones in order, and every submitted item is pending, in
  // progress or deleted.
  ghost predicate Inv(q: Queue) {
    && q.start <= |q.accepted| <= QUEUE_LENGTH
    && q.invoked == q.accepted[..q.start]
    && multiset(q.submitted) == multiset(Pending(q)) + multiset(q.running) + multiset(q.deleted)
  }

  lemma SubmitKeepsInv(q: Queue, item: Item)
    requires Inv(q) && Enabled(q, Submit(item))
    ensures Inv(Apply(q, Submit(item)))
  {
    if q.frozen {
      assert multiset(q.deleted + [item]) == multiset(q.deleted) + multiset{item};
    } else {
      assert (q.accepted + [item])[q.start..] == Pending(q) + [item];
      assert (q.accepted + [item])[..q.start] == q.accepted[..q.start];
    }
    assert multiset(q.submitted + [item]) == multiset(q.submitted) + multiset{item};
  }

  // An item that moves from the front of one list to the end of another is still there.
  lemma MoveItem(from: seq<Item>, onto: seq<Item>)
    requires from != []
    ensures multiset(from[1..]) + multiset(onto + [from[0]]) == multiset(from) + multiset(onto)
  {
    assert from == [from[0]] + from[1..];
    assert multiset(onto + [from[0]]) == multiset(onto) + multiset{from[0]};
  }

  lemma BeginKeepsInv(q: Queue)
    requires Inv(q) && Enabled(q, Begin)
    ensures Inv(Apply(q, Begin))
  {
    var r := Apply(q, Begin);
    MoveItem(Pending(q), q.running);
    assert Pending(r) == Pending(q)[1..];
    assert q.accepted[..q.start + 1] == q.accepted[..q.start] + [q.accepted[q.start]];
  }

  lemma FinishKeepsInv(q: Queue)
    requires Inv(q) && Enabled(q, Finish)
    ensures Inv(Apply(q, Finish))
  {
    var last := |q.running| - 1;
    assert q.running == q.running[..last] + [q.running[last]];
    assert multiset(q.running) == multiset(q.running[..last]) + multiset{q.running[last]};
    assert multiset(q.deleted + [q.running[last]]) == multiset(q.deleted) + multiset{q.running[last]};
  }

  lemma ClearKeepsInv(q: Queue)
    requires Inv(q)
    ensures Inv(Apply(q, Clear))
  {
    assert multiset(q.deleted + Pending(q)) == multiset(q.deleted) + multiset(Pending(q));
    assert Pending(Apply(q, Clear)) == [];
  }

  lemma ApplyKeepsInv(q: Queue, op: Op)
    requires Inv(q) && Enabled(q, op)
    ensures Inv(Apply(q, op))
  {
    match op
    case Submit(item) => SubmitKeepsInv(q, item);
    case Begin => BeginKeepsInv(q);
    case Finish => FinishKeepsInv(q);
    case Clear => ClearKeepsInv(q);
    case SetFrozen(_) =>
  }

  // After a clear nothing is pending, every item that was has been deleted in order, and numbering
  // starts over; items being invoked and the frozen flag are left alone.
  lemma ClearLaw(q: Queue)
    requires Inv(q)
    ensures var r := Apply(q, Clear);
            && Pending(r) == [] && r.accepted == [] && r.start == 0 && r.invoked == []
            && r.deleted == q.deleted + q.accepted[q.start..]
            && r.running == q.running && r.frozen == q.frozen && r.submitted == q.submitted
  {
  }

  // Freezing touches nothing that is there; a frozen queue deletes what is submitted next, one that
  // is not stores it.
  lemma FreezeLaw(q: Queue, frozen: bool, item: Item)
    requires Inv(q) && |q.accepted| < QUEUE_LENGTH
    ensures var f := Apply(q, SetFrozen(frozen));
            && f.accepted == q.accepted && f.start == q.start && f.running == q.running && f.invoked == q.invoked
            && f.deleted == q.deleted && f.submitted == q.submitted
            && var r := Apply(f, Submit(item));
            && Pending(r) == Pending(q) + (if frozen then [] else [item])
            && r.deleted == q.deleted + (if frozen then [item] else [])
            && r.frozen == frozen
  {
    assert (q.accepted + [item])[q.start..] == q.accepted[q.start..] + [item];
    assert Pending(q) + [] == Pending(q) && q.deleted + [] == q.deleted;
  }

  ghost predicate Runs(q: Queue, ops: seq<Op>)
    decreases |ops|
  {
    ops == [] || (Enabled(q, ops[0]) && Runs(Apply(q, ops[0]), ops[1..]))
  }

  ghost function Final(q: Queue, ops: seq<Op>): Queue
    requires Runs(q, ops)
    decreases |ops|
  {
    if ops == [] then q else Final(Apply(q, ops[0]), ops[1..])
  }

  lemma {:induction false} RunKeepsInv(q: Queue, ops: seq<Op>)
    requires Inv(q) && Runs(q, ops)
    ensures Inv(Final(q, ops))
    decreases |ops|
  {
    if ops != [] {
      ApplyKeepsInv(q, ops[0]);
      RunKeepsInv(Apply(q, ops[0]), ops[1..]);
    }
  }

  ghost predicate Distinct(items: seq<Item>) {
    forall x :: multiset(items)[x] <= 1
  }

  // In every run: first in, first out since the last clear, and an item submitted once is in exactly
  // one place - pending, in progress or deleted once.
  lemma FifoAndOneFate(ops: seq<Op>, x: Item)
    requires Runs(EMPTY, ops) && Distinct(Final(EMPTY, ops).submitted)
    ensures var q := Final(EMPTY, ops);
            && q.start <= |q.accepted| && q.invoked == q.accepted[..q.start]
            && multiset(q.deleted)[x] <= 1
            && (if x in q.submitted then 1 else 0) ==
               multiset(Pending(q))[x] + multiset(q.running)[x] + multiset(q.deleted)[x]
  {
    RunKeepsInv(EMPTY, ops);
    var q := Final(EMPTY, ops);
    assert multiset(q.submitted)[x] == multiset(Pending(q))[x] + multiset(q.running)[x] + multiset(q.deleted)[x];
    assert x in q.submitted <==> x in multiset(q.submitted);
  }

  // ---------------------------------------------------------------- processing

  // What one invocation does: the items it queues, and whether it started a load.
  datatype Effect = Effect(queues: seq<Item>, startsLoad: bool)

  // The assertion in queue holds for n submissions in a row; a frozen queue stores none of them.
  predicate Room(q: Queue, n: nat) {
    n == 0 || (if q.frozen then |q.accepted| < QUEUE_LENGTH else |q.accepted| + n <= QUEUE_LENGTH)
  }

  function SubmitAll(q: Queue, items: seq<Item>): Queue
    requires Room(q, |items|)
    decreases |items|
  {
    if items == [] then q else SubmitAll(Apply(q, Submit(items[0])), items[1..])
  }

  function TotalQueued(effects: seq<Effect>): nat {
    if effects == [] then 0 else |effects[0].queues| + TotalQueued(effects[1..])
  }

  // What a queue stores of submitted items.
  function Stored(q: Queue, items: seq<Item>): seq<Item> {
    if q.frozen then [] else items
  }

  // From q to r exactly `queued` was stored behind what q had accepted, and invocations were only
  // added.
  ghost predicate Advanced(q: Queue, r: Queue, queued: seq<Item>) {
    && r.running == q.running && r.frozen == q.frozen && r.start >= q.start && q.invoked <= r.invoked
    && r.accepted == q.accepted + Stored(q, queued)
  }

  lemma AdvancedTwice(q: Queue, m: Queue, r: Queue, a: seq<Item>, b: seq<Item>)
    requires Advanced(q, m, a) && Advanced(m, r, b)
    ensures Advanced(q, r, a + b)
  {
    assert q.accepted + Stored(q, a) + Stored(q, b) == q.accepted + Stored(q, a + b);
  }

  // From q to r exactly these items were submitted and deleted, in this order.
  ghost predicate Recorded(q: Queue, r: Queue, submitted: seq<Item>, deleted: seq<Item>) {
    r.submitted == q.submitted + submitted && r.deleted == q.deleted + deleted
  }

  // What a queue deletes at once of submitted items.
  function Refused(q: Queue, items: seq<Item>): seq<Item> {
    if q.frozen then items else []
  }

  lemma {:induction false} SubmitAllRecords(q: Queue, items: seq<Item>)
    requires Room(q, |items|)
    ensures SubmitAll(q, items).frozen == q.frozen
    ensures Recorded(q, SubmitAll(q, items), items, Refused(q, items))
    decreases |items|
  {
    if items == [] {
      assert q.submitted + [] == q.submitted && q.deleted + [] == q.deleted;
    } else {
      var m := Apply(q, Submit(items[0]));
      SubmitAllRecords(m, items[1..]);
      assert q.submitted + [items[0]] + items[1..] == q.submitted + items;
      assert q.deleted + [items[0]] + items[1..] == q.deleted + items;
    }
  }

  lemma SubmitAdvances(q: Queue, item: Item)
    requires Enabled(q, Submit(item))
    ensures var r := Apply(q, Submit(item));
            Advanced(q, r, [item]) && r.start == q.start && r.invoked == q.invoked
  {
    assert q.accepted + [] == q.accepted;
  }

  // All items are stored at the end in order, or none when the queue is frozen.
  lemma {:induction false} SubmitAllAdvances(q: Queue, items: seq<Item>)
    requires Room(q, |items|)
    ensures var r := SubmitAll(q, items);
            Advanced(q, r, items) && r.start == q.start && r.invoked == q.invoked
    decreases |items|
  {
    if items == [] {
      assert q.accepted + [] == q.accepted;
    } else {
      var m := Apply(q, Submit(items[0]));
      SubmitAdvances(q, items[0]);
      SubmitAllAdvances(m, items[1..]);
      AdvancedTwice(q, m, SubmitAll(m, items[1..]), [items[0]], items[1..]);
      assert [items[0]] + items[1..] == items;
    }
  }

  lemma {:induction false} SubmitAllLaw(q: Queue, items: seq<Item>)
    requires Inv(q) && Room(q, |items|)
    ensures var r := SubmitAll(q, items);
            Inv(r) && Advanced(q, r, items) && r.start == q.start && r.invoked == q.invoked
    decreases |items|
  {
    SubmitAllAdvances(q, items);
    if items != [] {
      SubmitKeepsInv(q, items[0]);
      SubmitAllLaw(Apply(q, Submit(items[0])), items[1..]);
    }
  }

  // One invocation: dequeue, run, delete.
  function InvokeNext(q: Queue, e: Effect): Queue
    requires Enabled(q, Begin) && Inv(q) && Room(q, |e.queues|)
  {
    SubmitAllLaw(BeginInv(q), e.queues);
    Apply(SubmitAll(Apply(q, Begin), e.queues), Finish)
  }

  function BeginInv(q: Queue): (r: Queue)
    requires Enabled(q, Begin) && Inv(q)
    ensures Inv(r) && r == Apply(q, Begin)
  {
    BeginKeepsInv(q);
    Apply(q, Begin)
  }

  // Beginning and finishing an invocation, with `items` stored in between.
  lemma FinishInnermost(q: Queue, queued: Queue, items: seq<Item>)
    requires Enabled(q, Begin) && Advanced(Apply(q, Begin), queued, items)
    requires queued.start == q.start + 1 && queued.invoked == Apply(q, Begin).invoked
    ensures var r := Apply(queued, Finish);
            Advanced(q, r, items) && r.start == q.start + 1 && r.invoked == q.invoked + [q.accepted[q.start]]
  {
    var item := q.accepted[q.start];
    assert queued.running == q.running + [item];
    assert queued.running[..|q.running|] == q.running;
  }

  // The oldest pending item is invoked and deleted, and what it queued is stored at the end.
  lemma InvokeNextLaw(q: Queue, e: Effect)
    requires Enabled(q, Begin) && Inv(q) && Room(q, |e.queues|)
    ensures var r := InvokeNext(q, e);
            && Inv(r) && Advanced(q, r, e.queues) && r.start == q.start + 1
            && r.invoked == q.invoked + [q.accepted[q.start]]
            && Recorded(q, r, e.queues, Refused(q, e.queues) + [q.accepted[q.start]])
  {
    var begun := Apply(q, Begin);
    BeginKeepsInv(q);
    SubmitAllLaw(begun, e.queues);
    var queued := SubmitAll(begun, e.queues);
    FinishKeepsInv(queued);
    FinishInnermost(q, queued, e.queues);
    SubmitAllRecords(begun, e.queues);
    FinishRecords(q, queued, e.queues);
  }

  lemma FinishRecords(q: Queue, queued: Queue, items: seq<Item>)
    requires Enabled(q, Begin) && queued.running == Apply(q, Begin).running
    requires Recorded(Apply(q, Begin), queued, items, Refused(q, items))
    ensures Recorded(q, Apply(queued, Finish), items, Refused(q, items) + [q.accepted[q.start]])
  {
    var item := q.accepted[q.start];
    assert queued.running == q.running + [item];
    assert q.deleted + Refused(q, items) + [item] == q.deleted + (Refused(q, items) + [item]);
  }

  // processWork, given what the successive invocations do; the flag says that one started a load.
  // The recursion ends because the start index grows and never passes the 1024 slots.
  function Process(q: Queue, effects: seq<Effect>): (Queue, bool)
    requires Inv(q) && Room(q, TotalQueued(effects))
    decreases QUEUE_LENGTH - q.start
  {
    if q.start == |q.accepted| then (q, false)
    else
      var e := FirstEffect(effects);
      InvokeNextLaw(q, e);
      var r := InvokeNext(q, e);
      if e.startsLoad then (r, true) else Process(r, RestEffects(effects))
  }

  function FirstEffect(effects: seq<Effect>): (e: Effect)
    ensures |e.queues| + TotalQueued(RestEffects(effects)) == TotalQueued(effects)
  {
    if effects == [] then Effect([], false) else effects[0]
  }

  function RestEffects(effects: seq<Effect>): seq<Effect> {
    if effects == [] then [] else effects[1..]
  }

  // What the first n invocations queue, in order; invocations behind the list queue nothing.
  function QueuedBy(effects: seq<Effect>, n: nat): seq<Item> {
    if n == 0 || effects == [] then [] else effects[0].queues + QueuedBy(effects[1..], n - 1)
  }

  lemma QueuedByNext(effects: seq<Effect>, n: nat)
    ensures QueuedBy(effects, n + 1) == FirstEffect(effects).queues + QueuedBy(RestEffects(effects), n)
  {
  }

  // The i-th invocation starts a load.
  predicate Loads(effects: seq<Effect>, i: int) {
    0 <= i < |effects| && effects[i].startsLoad
  }

  // Of n invocations the last one started a load, if any did, and that is what is reported.
  ghost predicate Reports(effects: seq<Effect>, n: nat, startedLoad: bool) {
    (startedLoad <==> Loads(effects, n - 1)) && forall i | 0 <= i < n - 1 :: !Loads(effects, i)
  }

  lemma ReportsNext(effects: seq<Effect>, n: nat, startedLoad: bool)
    requires !FirstEffect(effects).startsLoad && Reports(RestEffects(effects), n, startedLoad)
    ensures Reports(effects, n + 1, startedLoad)
  {
    forall i | 0 < i ensures Loads(effects, i) <==> Loads(RestEffects(effects), i - 1) {
    }
    assert !Loads(effects, 0) && !Loads(RestEffects(effects), -1);
  }

  // Work was done in order from q to r: behind what was accepted before come exactly the items that
  // the invocations queued, what was invoked continues the accepted sequence, those items included,
  // the first load stopped it, and without a load nothing is left.
  ghost predicate Worked(q: Queue, effects: seq<Effect>, r: Queue, startedLoad: bool) {
    && q.start <= r.start <= |r.accepted| <= QUEUE_LENGTH
    && Advanced(q, r, QueuedBy(effects, r.start - q.start)) && r.invoked == r.accepted[..r.start]
    && (!startedLoad ==> Pending(r) == [])
    && Reports(effects, r.start - q.start, startedLoad)
  }

  lemma WorkedOneMore(q: Queue, effects: seq<Effect>, m: Queue, r: Queue, startedLoad: bool)
    requires Advanced(q, m, FirstEffect(effects).queues) && m.start == q.start + 1 && !FirstEffect(effects).startsLoad
    requires Worked(m, RestEffects(effects), r, startedLoad)
    ensures Worked(q, effects, r, startedLoad)
  {
    var n := r.start - m.start;
    QueuedByNext(effects, n);
    ReportsNext(effects, n, startedLoad);
    AdvancedTwice(q, m, r, FirstEffect(effects).queues, QueuedBy(RestEffects(effects), n));
  }

  lemma {:induction false} ProcessLaw(q: Queue, effects: seq<Effect>)
    requires Inv(q) && Room(q, TotalQueued(effects))
    ensures var (r, startedLoad) := Process(q, effects);
            Inv(r) && Worked(q, effects, r, startedLoad)
    decreases QUEUE_LENGTH - q.start
  {
    if q.start == |q.accepted| {
      assert q.accepted + [] == q.accepted;
    } else {
      var e, rest := FirstEffect(effects), RestEffects(effects);
      InvokeNextLaw(q, e);
      var m := InvokeNext(q, e);
      if e.startsLoad {
        LoadStarted(q, effects, m);
      } else {
        ProcessLaw(m, rest);
        WorkedOneMore(q, effects, m, Process(m, rest).0, Process(m, rest).1);
      }
    }
  }

  lemma LoadStarted(q: Queue, effects: seq<Effect>, m: Queue)
    requires Inv(m) && Advanced(q, m, FirstEffect(effects).queues) && m.start == q.start + 1
    requires FirstEffect(effects).startsLoad
    ensures Worked(q, effects, m, true)
  {
    var e := FirstEffect(effects);
    QueuedByNext(effects, 0);
    assert e.queues + [] == e.queues;
  }

  // What was queued counts as submitted; each invoked item is deleted, in order, once its invocation
  // is over, and a frozen queue deletes what is queued as well.
  ghost predicate Accounted(q: Queue, effects: seq<Effect>, r: Queue) {
    && q.start <= r.start <= |r.accepted|
    && r.submitted == q.submitted + QueuedBy(effects, r.start - q.start)
    && (!q.frozen ==> r.deleted == q.deleted + r.accepted[q.start..r.start])
  }

  lemma AccountedOneMore(q: Queue, effects: seq<Effect>, m: Queue, r: Queue)
    requires m.start == q.start + 1 <= |q.accepted| && m.frozen == q.frozen && q.accepted <= r.accepted
    requires var e := FirstEffect(effects);
             Recorded(q, m, e.queues, Refused(q, e.queues) + [q.accepted[q.start]])
    requires Accounted(m, RestEffects(effects), r)
    ensures Accounted(q, effects, r)
  {
    var first, n := FirstEffect(effects).queues, r.start - m.start;
    QueuedByNext(effects, n);
    assert q.submitted + first + QueuedBy(RestEffects(effects), n) == q.submitted + QueuedBy(effects, n + 1);
    assert r.accepted[q.start..r.start] == [q.accepted[q.start]] + r.accepted[m.start..r.start];
    assert [] + [q.accepted[q.start]] == [q.accepted[q.start]];
  }

  lemma NoneAccounted(q: Queue, effects: seq<Effect>)
    requires q.start <= |q.accepted|
    ensures Accounted(q, effects, q)
  {
    assert q.submitted + [] == q.submitted && q.deleted + [] == q.deleted && q.accepted[q.start..q.start] == [];
  }

  lemma {:induction false} ProcessAccounts(q: Queue, effects: seq<Effect>)
    requires Inv(q) && Room(q, TotalQueued(effects))
    ensures Accounted(q, effects, Process(q, effects).0)
    decreases QUEUE_LENGTH - q.start
  {
    if q.start == |q.accepted| {
      NoneAccounted(q, effects);
    } else {
      var e, rest := FirstEffect(effects), RestEffects(effects);
      InvokeNextLaw(q, e);
      var m := InvokeNext(q, e);
      ProcessLaw(q, effects);
      if e.startsLoad {
        NoneAccounted(m, rest);
      } else {
        ProcessAccounts(m, rest);
      }
      AccountedOneMore(q, effects, m, Process(q, effects).0);
    }
  }

  // ---------------------------------------------------------------- the code

  class WorkQueueSingleton {
    const theQueue: array<Option<Item>>
    var startOfQueue: nat
    var endOfQueue: nat
    var frozen: bool

    ghost var model: Queue

    ghost predicate Valid()
      reads this, theQueue
    {
      && theQueue.Length == QUEUE_LENGTH && Inv(model)
      && startOfQueue == model.start && endOfQueue == |model.accepted| && frozen == model.frozen
      && forall i | startOfQueue <= i < endOfQueue :: theQueue[i] == Some(model.accepted[i])
    }

    constructor ()
      ensures Valid() && model == EMPTY && fresh(theQueue)
    {
      theQueue := new Option<Item>[QUEUE_LENGTH](_ => None);
      startOfQueue, endOfQueue, frozen := 0, 0, false;
      model := EMPTY;
    }

    method Enqueue(item: Item)
      requires Valid() && endOfQueue < QUEUE_LENGTH
      modifies this, theQueue
      ensures Valid() && model == Apply(old(model), Submit(item))
    {
      SubmitKeepsInv(model, item);
      model := Apply(model, Submit(item));
      if frozen {
        return;
      }
      theQueue[endOfQueue] := Some(item);
      endOfQueue := endOfQueue + 1;
    }

    // Dequeues and, in the model, begins the item's invocation.
    method Dequeue() returns (r: Option<Item>)
      requires Valid()
      modifies this
      ensures Valid()
      ensures if old(Pending(model)) == [] then r == None && model == old(model)
              else r == Some(old(Pending(model))[0]) && model == Apply(old(model), Begin)
    {
      if startOfQueue == endOfQueue {
        return None;
      }
      BeginKeepsInv(model);
      r := theQueue[startOfQueue];
      model := Apply(model, Begin);
      startOfQueue := startOfQueue + 1;
    }

    method Count() returns (n: nat)
      requires Valid()
      ensures n == |Pending(model)|
    {
      n := endOfQueue - startOfQueue;
    }

    method Clear()
      requires Valid()
      modifies this, theQueue
      ensures Valid() && model == Apply(old(model), Op.Clear)
      ensures startOfQueue == 0 && endOfQueue == 0 && frozen == old(frozen)
      ensures forall i | old(startOfQueue) <= i < old(endOfQueue) :: theQueue[i] == None
    {
      for i := startOfQueue to endOfQueue
        invariant unchanged(this) && forall j | startOfQueue <= j < i :: theQueue[j] == None
      {
        theQueue[i] := None;
      }
      ClearKeepsInv(model);
      model := Apply(model, Op.Clear);
      startOfQueue, endOfQueue := 0, 0;
    }

    method SetFrozen(b: bool)
      requires Valid()
      modifies this`frozen, this`model
      ensures Valid() && model == Apply(old(model), Op.SetFrozen(b))
    {
      frozen := b;
      model := Apply(model, Op.SetFrozen(b));
    }

    // item->invoke(): queues more work.
    method Invoke(e: Effect) returns (startsLoad: bool)
      requires Valid() && Room(model, |e.queues|)
      modifies this, theQueue
      ensures Valid() && startsLoad == e.startsLoad && model == SubmitAll(old(model), e.queues)
    {
      SubmitAllLaw(model, e.queues);
      for i := 0 to |e.queues|
        invariant Valid() && Room(model, |e.queues| - i)
        invariant SubmitAll(model, e.queues[i..]) == SubmitAll(old(model), e.queues)
      {
        Enqueue(e.queues[i]);
      }
      startsLoad := e.startsLoad;
    }

    // The loop body of processWork.
    method RunNext(e: Effect) returns (startsLoad: bool)
      requires Valid() && Enabled(model, Begin) && Room(model, |e.queues|)
      modifies this, theQueue
      ensures Valid() && startsLoad == e.startsLoad && model == InvokeNext(old(model), e)
    {
      assert |Pending(model)| > 0;
      var item := Dequeue();
      assert item.Some? && model == Apply(old(model), Begin);
      SubmitAllLaw(model, e.queues);
      startsLoad := Invoke(e);
      Delete();
    }

    // delete item, once its invocation has returned.
    method Delete()
      requires Valid() && model.running != []
      modifies this`model
      ensures Valid() && model == Apply(old(model), Finish)
    {
      FinishKeepsInv(model);
      model := Apply(model, Finish);
    }

    method ProcessWork(effects: seq<Effect>) returns (allDone: bool)
      requires Valid() && Room(model, TotalQueued(effects))
      modifies this, theQueue
      ensures Valid() && (model, !allDone) == Process(old(model), effects)
      ensures Worked(old(model), effects, model, !allDone)
    {
      ghost var q := model;
      ProcessLaw(q, effects);
      ghost var expected := Process(q, effects);
      var startedLoad := InvokeUntilLoad(effects, expected);
      allDone := !startedLoad;
    }

    // The loop of processWork.
    method InvokeUntilLoad(effects: seq<Effect>, ghost expected: (Queue, bool)) returns (startedLoad: bool)
      requires Valid() && Room(model, TotalQueued(effects)) && expected == Process(model, effects)
      modifies this, theQueue
      ensures Valid() && (model, startedLoad) == expected
    {
      startedLoad := false;
      var left := effects;
      var n := Count();
      while !startedLoad && n > 0
        invariant Valid() && n == |Pending(model)|
        invariant Room(model, TotalQueued(left))
        invariant expected == if startedLoad then (model, true) else Process(model, left)
        decreases !startedLoad, QUEUE_LENGTH - startOfQueue
      {
        InvokeNextLaw(model, FirstEffect(left));
        startedLoad := RunNext(FirstEffect(left));
        left := RestEffects(left);
        n := Count();
      }
    }
  }
}
