/**
 * The work queues of WorkQueue.cpp (a static array with two indices) and WorkQueueManager.cpp (a deque), run
 * with re-entrancy: while an item is invoked it may queue items, clear the queue, freeze it, and process it
 * again. Both refine one abstract queue, on which ownership and order are proved for every run.
 *
 * An item is known by its number in the order of creation.
 */
module WorkQueueRuns {
  import opened Options
  import opened Transitions

  type Id = nat

  /** An activation of the processing loop: at its head, or inside an item's `invoke`. */
  datatype Frame = AtHead | Invoking(item: Id)

  /** The activations, innermost last, and the history of the run. */
  datatype Log = Log(frames: seq<Frame>, created: nat, invoked: seq<Id>, deleted: seq<Id>)

  datatype Queue = Queue(pending: seq<Id>, log: Log)

  /** What the program outside the queue may do, and the turns of the processing loop. */
  datatype Op =
    | Add             // a new item is handed to the queue
    | Clear
    | SetFrozen(b: bool)
    | Begin           // the processing function is called
    | Take            // the loop takes the first item and invokes it
    | Finish(load: bool)  // invoke returns, saying whether it started a load
    | Return          // the loop ends because nothing is pending

  const EMPTY := Queue([], Log([], 0, [], []))

  // ---------------------------------------------------------------- the abstract queue

  /** The program outside the queue is running: before the processing loop is called, or inside an item. */
  predicate Outside(frames: seq<Frame>) {
    frames == [] || frames[|frames| - 1].Invoking?
  }

  predicate ProgramRuns(log: Log) {
    Outside(log.frames)
  }

  predicate LoopRuns(log: Log) {
    log.frames != [] && log.frames[|log.frames| - 1].AtHead?
  }

  predicate Enabled(q: Queue, op: Op) {
    match op
    case Add | Clear | SetFrozen(_) | Begin => ProgramRuns(q.log)
    case Take => LoopRuns(q.log) && q.pending != []
    case Finish(_) => q.log.frames != [] && ProgramRuns(q.log)
    case Return => LoopRuns(q.log) && q.pending == []
  }

  function Pop(frames: seq<Frame>): seq<Frame>
    requires frames != []
  {
    frames[..|frames| - 1]
  }

  function Top(frames: seq<Frame>): Frame
    requires frames != []
  {
    frames[|frames| - 1]
  }

  /** `accepts` says whether the queue takes a new item; one it does not take is deleted at once. */
  function Next(q: Queue, op: Op, accepts: bool): Queue
    requires Enabled(q, op)
  {
    var log := q.log;
    match op
    case Add =>
      var added := log.(created := log.created + 1);
      if accepts then Queue(q.pending + [log.created], added)
      else Queue(q.pending, added.(deleted := log.deleted + [log.created]))
    case Clear => Queue([], log.(deleted := log.deleted + q.pending))
    case SetFrozen(_) => q
    case Begin => q.(log := log.(frames := log.frames + [AtHead]))
    case Take =>
      var item := q.pending[0];
      Queue(q.pending[1..], log.(frames := Pop(log.frames) + [Invoking(item)], invoked := log.invoked + [item]))
    case Finish(load) =>
      var item := Top(log.frames).item;
      q.(log := log.(frames := if load then Pop(log.frames) else Pop(log.frames) + [AtHead],
                     deleted := log.deleted + [item]))
    case Return => q.(log := log.(frames := Pop(log.frames)))
  }

  // ---------------------------------------------------------------- ownership and order

  function Items(frames: seq<Frame>): multiset<Id> {
    if frames == [] then multiset{}
    else Items(Pop(frames)) + if Top(frames).Invoking? then multiset{Top(frames).item} else multiset{}
  }

  /** Each item created so far, once. */
  function AllIds(created: nat): multiset<Id> {
    if created == 0 then multiset{} else AllIds(created - 1) + multiset{created - 1}
  }

  /** Every item is in exactly one place: deleted, pending, or being invoked. */
  ghost predicate Owned(q: Queue) {
    multiset(q.log.deleted) + multiset(q.pending) + Items(q.log.frames) == AllIds(q.log.created)
  }

  ghost predicate Increasing(s: seq<Id>) {
    forall i, j :: 0 <= i < j < |s| ==> s[i] < s[j]
  }

  /** Items are invoked in the order in which they were handed in. */
  ghost predicate Ordered(q: Queue) {
    Increasing(q.log.invoked + q.pending) && forall id :: id in q.log.invoked + q.pending ==> id < q.log.created
  }

  ghost predicate Inv(q: Queue) {
    Owned(q) && Ordered(q)
  }

  lemma ItemsPush(frames: seq<Frame>, f: Frame)
    ensures Items(frames + [f]) == Items(frames) + if f.Invoking? then multiset{f.item} else multiset{}
  {
    assert Pop(frames + [f]) == frames && Top(frames + [f]) == f;
  }

  lemma OwnedAdd(q: Queue, accepts: bool)
    requires Owned(q) && Enabled(q, Add)
    ensures Owned(Next(q, Add, accepts))
  {
  }

  lemma Regroup(d: multiset<Id>, x: multiset<Id>, rest: multiset<Id>, items: multiset<Id>)
    ensures d + (x + rest) + items == d + rest + (items + x)
  {
  }

  lemma OwnedTake(q: Queue)
    requires Owned(q) && Enabled(q, Take)
    ensures Owned(Next(q, Take, false))
  {
    var x, rest, frames := q.pending[0], q.pending[1..], q.log.frames;
    ItemsPush(Pop(frames), Invoking(x));
    assert Items(frames) == Items(Pop(frames));
    assert multiset(q.pending) == multiset{x} + multiset(rest) by {
      assert q.pending == [x] + rest;
    }
    Regroup(multiset(q.log.deleted), multiset{x}, multiset(rest), Items(frames));
  }

  lemma OwnedFinish(q: Queue, load: bool)
    requires Owned(q) && Enabled(q, Finish(load))
    ensures Owned(Next(q, Finish(load), false))
  {
    ItemsPush(Pop(q.log.frames), AtHead);
  }

  lemma OwnedStep(q: Queue, op: Op, accepts: bool)
    requires Owned(q) && Enabled(q, op)
    ensures Owned(Next(q, op, accepts))
  {
    match op
    case Add => OwnedAdd(q, accepts);
    case Clear =>
    case SetFrozen(_) =>
    case Begin => ItemsPush(q.log.frames, AtHead);
    case Take => OwnedTake(q);
    case Finish(load) => OwnedFinish(q, load);
    case Return =>
  }

  lemma OrderedStep(q: Queue, op: Op, accepts: bool)
    requires Ordered(q) && Enabled(q, op)
    ensures Ordered(Next(q, op, accepts))
  {
    var t, all := Next(q, op, accepts), q.log.invoked + q.pending;
    match op
    case Add =>
      if accepts {
        assert t.log.invoked + t.pending == all + [q.log.created];
        forall id | id in all + [q.log.created]
          ensures id < t.log.created
        {
          assert id in all || id == q.log.created;
        }
        assert forall i :: 0 <= i < |all| ==> all[i] in all;
      }
    case Clear =>
      assert t.log.invoked + t.pending == all[..|q.log.invoked|];
      assert forall id :: id in all[..|q.log.invoked|] ==> id in all;
    case Take => assert t.log.invoked + t.pending == all;
    case SetFrozen(_) =>
    case Begin =>
    case Finish(_) =>
    case Return =>
  }

  lemma {:induction false} AllIdsOnce(created: nat, id: Id)
    ensures AllIds(created)[id] == if id < created then 1 else 0
  {
    if created > 0 {
      AllIdsOnce(created - 1, id);
    }
  }

  // ---------------------------------------------------------------- the array

  const QUEUE_LENGTH: nat := 1024

  /** The static array, its two indices and the frozen flag. `accepted` counts items stored since the last clear. */
  datatype Arr = Arr(slots: seq<Option<Id>>, start: nat, end: nat, frozen: bool, accepted: nat, log: Log)

  ghost predicate ArrValid(a: Arr) {
    |a.slots| == QUEUE_LENGTH && a.end == a.accepted && ArrLive(a)
  }

  /** The slots between the indices hold items. The others are stale, and may hold items that were deleted. */
  predicate ArrLive(a: Arr) {
    a.start <= a.end <= |a.slots| && forall i :: a.start <= i < a.end ==> a.slots[i].Some?
  }

  function ArrPending(a: Arr): seq<Id>
    requires ArrLive(a)
  {
    seq(a.end - a.start, i requires 0 <= i < a.end - a.start => a.slots[a.start + i].value)
  }

  function ArrView(a: Arr): Queue
    requires ArrLive(a)
  {
    Queue(ArrPending(a), a.log)
  }

  /** `queue` asserts that there is room. */
  ghost predicate ArrEnabled(a: Arr, op: Op) {
    ArrValid(a) && Enabled(ArrView(a), op) && (op.Add? ==> a.accepted < QUEUE_LENGTH)
  }

  /** The slots with those from `i` to below `j` emptied. */
  function Emptied<T>(slots: seq<Option<T>>, i: nat, j: nat): (r: seq<Option<T>>)
    requires i <= j <= |slots|
    ensures |r| == |slots| && forall k :: 0 <= k < |r| ==> r[k] == if i <= k < j then None else slots[k]
  {
    slots[..i] + seq(j - i, _ => None) + slots[j..]
  }

  function ArrNext(a: Arr, op: Op): Arr
    requires |a.slots| == QUEUE_LENGTH && ArrLive(a) && Enabled(ArrView(a), op)
    requires op.Add? ==> a.end < QUEUE_LENGTH
  {
    var log := a.log;
    match op
    case Add =>
      var added := log.(created := log.created + 1);
      if a.frozen then a.(log := added.(deleted := log.deleted + [log.created]))
      else a.(slots := a.slots[a.end := Some(log.created)], end := a.end + 1, accepted := a.accepted + 1, log := added)
    case Clear =>
      a.(slots := Emptied(a.slots, a.start, a.end),
         start := 0, end := 0, accepted := 0, log := log.(deleted := log.deleted + ArrPending(a)))
    case SetFrozen(b) => a.(frozen := b)
    case Begin => a.(log := log.(frames := log.frames + [AtHead]))
    case Take =>
      var item := a.slots[a.start].value;
      a.(start := a.start + 1,
         log := log.(frames := Pop(log.frames) + [Invoking(item)], invoked := log.invoked + [item]))
    case Finish(load) =>
      a.(log := log.(frames := if load then Pop(log.frames) else Pop(log.frames) + [AtHead],
                     deleted := log.deleted + [Top(log.frames).item]))
    case Return => a.(log := log.(frames := Pop(log.frames)))
  }

  /** Every operation on the array is the operation on the abstract queue; stale slots play no part in it. */
  lemma ArrRefines(a: Arr, op: Op)
    requires ArrEnabled(a, op)
    ensures ArrValid(ArrNext(a, op))
    ensures ArrView(ArrNext(a, op)) == Next(ArrView(a), op, !a.frozen)
  {
    var b := ArrNext(a, op);
    match op
    case Add =>
      if !a.frozen {
        assert ArrPending(b) == ArrPending(a) + [a.log.created];
      }
    case Take =>
      assert ArrPending(a)[0] == a.slots[a.start].value && ArrPending(b) == ArrPending(a)[1..];
    case Clear =>
    case SetFrozen(_) =>
    case Begin =>
    case Finish(_) =>
    case Return =>
  }

  /** An item that is added after the queue has been frozen is deleted; after it has been thawed, it is pending. */
  lemma FrozenThenAdd(a: Arr, frozen: bool)
    requires ArrEnabled(a, SetFrozen(frozen)) && a.accepted < 1024
    ensures var b := ArrNext(a, SetFrozen(frozen));
      ArrEnabled(b, Add) && b.log == a.log && ArrPending(b) == ArrPending(a)
    ensures var c := ArrNext(ArrNext(a, SetFrozen(frozen)), Add);
      && ArrValid(c)
      && ArrPending(c) == ArrPending(a) + (if frozen then [] else [a.log.created])
      && c.log.deleted == a.log.deleted + (if frozen then [a.log.created] else [])
  {
    var b := ArrNext(a, SetFrozen(frozen));
    ArrRefines(a, SetFrozen(frozen));
    ArrRefines(b, Add);
  }

  /** There is room for 1024 items between one clearing and the next. */
  lemma FullQueue(a: Arr)
    requires ArrEnabled(a, Clear)
    ensures ArrEnabled(a, Add) <==> a.accepted < 1024
    ensures ArrNext(a, Clear).accepted == 0
  {
  }

  ghost function ArrStep(a: Arr, op: Op): Option<Arr> {
    if ArrEnabled(a, op) then Some(ArrNext(a, op)) else None
  }

  ghost predicate ArrReaches(x: Arr, y: Arr) {
    CanReach(ArrStep, x, y)
  }

  /** One turn of the processing loop that takes item `x`; the activation below is one of `frames`. */
  function ArrTurned(a: Arr, frames: seq<Frame>, x: Id, load: bool): Arr {
    a.(start := a.start + 1,
       log := Log(if load then frames else frames + [AtHead], a.log.created, a.log.invoked + [x], a.log.deleted + [x]))
  }

  lemma ArrTurn(a: Arr, frames: seq<Frame>, x: Id, load: bool)
    requires ArrValid(a) && a.start < a.end && a.slots[a.start] == Some(x) && a.log.frames == frames + [AtHead]
    ensures ArrReaches(a, ArrTurned(a, frames, x, load))
  {
    assert Pop(a.log.frames) == frames;
    assert ArrPending(a) != [];
    var b := ArrNext(a, Take);
    ArrRefines(a, Take);
    ReachStep(ArrStep, a, Take, ArrNext(a, Take));
    assert Pop(b.log.frames) == frames && Top(b.log.frames) == Invoking(x);
    ReachStep(ArrStep, b, Finish(load), ArrNext(b, Finish(load)));
    assert ArrNext(b, Finish(load)) == ArrTurned(a, frames, x, load);
    ReachOn(ArrStep, a, b, ArrTurned(a, frames, x, load));
  }

  ghost predicate ArrInv(a: Arr) {
    ArrValid(a) && Inv(ArrView(a))
  }

  lemma ArrStepKeeps(a: Arr, op: Op)
    requires ArrInv(a) && ArrEnabled(a, op)
    ensures ArrInv(ArrNext(a, op))
  {
    ArrRefines(a, op);
    OwnedStep(ArrView(a), op, !a.frozen);
    OrderedStep(ArrView(a), op, !a.frozen);
  }

  /** The array as the program finds it: whatever is in the slots, nothing is live. */
  ghost predicate ArrInitial(a: Arr) {
    |a.slots| == QUEUE_LENGTH && a.start == a.end == a.accepted == 0 && a.log == Log([], 0, [], [])
  }

  /**
   * In every run of the array queue, each item is invoked at most once and in the order of arrival, and is
   * deleted exactly once or is still pending or being invoked.
   */
  lemma ArrRuns(a: Arr, run: seq<Op>, b: Arr, id: Id)
    requires ArrInitial(a) && Leads(ArrStep, a, run, b)
    ensures ArrValid(b) && Increasing(b.log.invoked + ArrPending(b))
    ensures multiset(b.log.deleted)[id] + multiset(ArrPending(b))[id] + Items(b.log.frames)[id]
         == if id < b.log.created then 1 else 0
  {
    assert ArrView(a) == EMPTY;
    forall x, op | ArrInv(x) && ArrStep(x, op).Some?
      ensures ArrInv(ArrStep(x, op).value)
    {
      ArrStepKeeps(x, op);
    }
    RunKeeps(ArrStep, ArrInv, a, run, b);
    AllIdsOnce(b.log.created, id);
  }

  // ---------------------------------------------------------------- the deque

  /** The deque, and the flag that says that a load is being waited for. */
  datatype Deq = Deq(queue: seq<Id>, processing: bool, log: Log)

  function DeqView(d: Deq): Queue {
    Queue(d.queue, d.log)
  }

  /** At the head of the loop the flag is unset: no load has been started by the last item. */
  ghost predicate DeqValid(d: Deq) {
    LoopRuns(d.log) ==> !d.processing
  }

  predicate DeqEnabled(d: Deq, op: Op) {
    match op
    case SetFrozen(_) => false
    case Take => LoopRuns(d.log) && !d.processing && d.queue != []
    case Return => LoopRuns(d.log) && (d.processing || d.queue == [])
    case Add | Clear | Begin | Finish(_) => Enabled(DeqView(d), op)
  }

  function DeqNext(d: Deq, op: Op): Deq
    requires DeqEnabled(d, op)
  {
    var log := d.log;
    match op
    case Add =>
      var added := log.(created := log.created + 1);
      if d.processing then d.(log := added.(deleted := log.deleted + [log.created]))
      else d.(queue := d.queue + [log.created], log := added)
    case Clear => Deq([], false, log.(deleted := log.deleted + d.queue))
    case SetFrozen(_) => d
    case Begin => d.(processing := false, log := log.(frames := log.frames + [AtHead]))
    case Take =>
      var item := d.queue[0];
      d.(queue := d.queue[1..],
         log := log.(frames := Pop(log.frames) + [Invoking(item)], invoked := log.invoked + [item]))
    case Finish(load) =>
      d.(processing := load,
         log := log.(frames := if load then Pop(log.frames) else Pop(log.frames) + [AtHead],
                     deleted := log.deleted + [Top(log.frames).item]))
    case Return => d.(log := log.(frames := Pop(log.frames)))
  }

  /** Nested activations: the loops below the innermost one are all inside an item's `invoke`. */
  ghost predicate Nested(log: Log) {
    forall i :: 0 <= i < |log.frames| - 1 ==> log.frames[i].Invoking?
  }

  /** Every operation on the deque is the operation on the abstract queue. */
  lemma DeqRefines(d: Deq, op: Op)
    requires DeqValid(d) && Nested(d.log) && DeqEnabled(d, op)
    ensures Enabled(DeqView(d), op)
    ensures DeqValid(DeqNext(d, op)) && Nested(DeqNext(d, op).log)
    ensures DeqView(DeqNext(d, op)) == Next(DeqView(d), op, !d.processing)
  {
    match op
    case Finish(load) => assert forall i :: 0 <= i < |d.log.frames| - 1 ==> Pop(d.log.frames)[i] == d.log.frames[i];
    case _ =>
  }

  /** An item that is added after one has started a load is deleted; after the queue has been cleared, it is pending. */
  lemma LoadThenAdd(d: Deq)
    requires DeqValid(d) && Nested(d.log) && DeqEnabled(d, Finish(true))
    ensures var e := DeqNext(d, Finish(true));
      DeqEnabled(e, Add) && DeqNext(e, Add).queue == d.queue
      && DeqNext(e, Add).log.deleted == e.log.deleted + [d.log.created]
    ensures var e := DeqNext(DeqNext(d, Finish(true)), Clear);
      DeqEnabled(e, Add) && DeqNext(e, Add).queue == [d.log.created] && DeqNext(e, Add).log.deleted == e.log.deleted
  {
    assert forall i :: 0 <= i < |d.log.frames| - 1 ==> Pop(d.log.frames)[i] == d.log.frames[i];
  }

  ghost function DeqStep(d: Deq, op: Op): Option<Deq> {
    if DeqEnabled(d, op) then Some(DeqNext(d, op)) else None
  }

  ghost predicate DeqReaches(x: Deq, y: Deq) {
    CanReach(DeqStep, x, y)
  }

  /** One turn of the processing loop; the activation below is one of `frames`. */
  function DeqTurned(d: Deq, frames: seq<Frame>, load: bool): Deq
    requires d.queue != []
  {
    var x := d.queue[0];
    Deq(d.queue[1..], load,
        Log(if load then frames else frames + [AtHead], d.log.created, d.log.invoked + [x], d.log.deleted + [x]))
  }

  lemma DeqTurn(d: Deq, frames: seq<Frame>, load: bool)
    requires d.queue != [] && !d.processing && d.log.frames == frames + [AtHead]
    ensures DeqReaches(d, DeqTurned(d, frames, load))
  {
    assert Pop(d.log.frames) == frames;
    var e := DeqNext(d, Take);
    ReachStep(DeqStep, d, Take, DeqNext(d, Take));
    assert Pop(e.log.frames) == frames && Top(e.log.frames) == Invoking(d.queue[0]);
    ReachStep(DeqStep, e, Finish(load), DeqNext(e, Finish(load)));
    assert DeqNext(e, Finish(load)) == DeqTurned(d, frames, load);
    ReachOn(DeqStep, d, e, DeqTurned(d, frames, load));
  }

  ghost predicate DeqInv(d: Deq) {
    DeqValid(d) && Nested(d.log) && Inv(DeqView(d))
  }

  lemma DeqStepKeeps(d: Deq, op: Op)
    requires DeqInv(d) && DeqEnabled(d, op)
    ensures DeqInv(DeqNext(d, op))
  {
    DeqRefines(d, op);
    OwnedStep(DeqView(d), op, !d.processing);
    OrderedStep(DeqView(d), op, !d.processing);
  }

  /** The same holds of every run of the deque queue, and of what it owns. */
  lemma DeqRuns(run: seq<Op>, e: Deq, id: Id)
    requires Leads(DeqStep, Deq([], false, Log([], 0, [], [])), run, e)
    ensures Increasing(e.log.invoked + e.queue)
    ensures multiset(e.log.deleted)[id] + multiset(e.queue)[id] + Items(e.log.frames)[id]
         == if id < e.log.created then 1 else 0
  {
    assert DeqView(Deq([], false, Log([], 0, [], []))) == EMPTY;
    forall x, op | DeqInv(x) && DeqStep(x, op).Some?
      ensures DeqInv(DeqStep(x, op).value)
    {
      DeqStepKeeps(x, op);
    }
    RunKeeps(DeqStep, DeqInv, Deq([], false, Log([], 0, [], [])), run, e);
    AllIdsOnce(e.log.created, id);
  }
}
