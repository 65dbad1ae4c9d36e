/**
 * The two work queues as programs: WorkQueue.cpp and WorkQueueManager.cpp. An item knows whether invoking it
 * starts a load; what it does besides is not visible here.
 */
module WorkQueues {
  import opened Options
  import opened Transitions
  import Runs = WorkQueueRuns

  datatype Item = Item(id: nat, startsLoad: bool)

  /** How many items one call of the processing function takes: up to the first that starts a load. */
  function Batch(items: seq<Item>): (n: nat)
    ensures n <= |items|
  {
    if items == [] then 0 else if items[0].startsLoad then 1 else 1 + Batch(items[1..])
  }

  ghost predicate StartsLoad(items: seq<Item>) {
    exists i :: 0 <= i < |items| && items[i].startsLoad
  }

  lemma ConsStartsLoad(x: Item, rest: seq<Item>)
    ensures StartsLoad([x] + rest) <==> x.startsLoad || StartsLoad(rest)
  {
    var all := [x] + rest;
    assert all[0] == x;
    if i :| 0 <= i < |rest| && rest[i].startsLoad {
      assert all[i + 1].startsLoad;
    }
    if i :| 0 < i < |all| && all[i].startsLoad {
      assert rest[i - 1].startsLoad;
    }
  }

  lemma AppendStartsLoad(items: seq<Item>, x: Item)
    ensures StartsLoad(items + [x]) <==> StartsLoad(items) || x.startsLoad
  {
    var all := items + [x];
    assert all[|items|] == x;
    if i :| 0 <= i < |items| && items[i].startsLoad {
      assert all[i].startsLoad;
    }
  }

  /** The batch is the shortest prefix that ends in a load, or everything if nothing loads. */
  lemma {:induction false} BatchIsShortest(items: seq<Item>)
    ensures StartsLoad(items) ==> Batch(items) > 0 && items[Batch(items) - 1].startsLoad
    ensures !StartsLoad(items) ==> Batch(items) == |items|
    ensures !StartsLoad(items[..if StartsLoad(items) then Batch(items) - 1 else Batch(items)])
  {
    if items != [] {
      var rest := items[1..];
      assert items == [items[0]] + rest;
      ConsStartsLoad(items[0], rest);
      if !items[0].startsLoad {
        BatchIsShortest(rest);
        var n := if StartsLoad(items) then Batch(items) - 1 else Batch(items);
        assert items[..n] == [items[0]] + rest[..n - 1];
        ConsStartsLoad(items[0], rest[..n - 1]);
      }
    }
  }

  /** The processing loop after `n` items, the last of which may have started a load. */
  ghost predicate InBatch(items: seq<Item>, n: nat, startedLoad: bool) {
    && n <= |items|
    && Batch(items) == (if startedLoad then n else n + Batch(items[n..]))
    && (if startedLoad then StartsLoad(items) else !StartsLoad(items[..n]))
  }

  lemma BatchStep(items: seq<Item>, n: nat)
    requires InBatch(items, n, false) && n < |items|
    ensures InBatch(items, n + 1, items[n].startsLoad)
    ensures items[..n + 1] == items[..n] + [items[n]] && items[n..][1..] == items[n + 1..]
  {
    assert items[n..][1..] == items[n + 1..];
    assert items[..n + 1] == items[..n] + [items[n]];
    AppendStartsLoad(items[..n], items[n]);
  }

  lemma BatchDone(items: seq<Item>, n: nat, startedLoad: bool)
    requires InBatch(items, n, startedLoad) && (startedLoad || n == |items|)
    ensures n == Batch(items) && startedLoad == StartsLoad(items)
  {
    assert n == |items| ==> items[..n] == items;
  }

  const QUEUE_LENGTH: nat := Runs.QUEUE_LENGTH

  function IdsOf(items: seq<Item>): seq<Runs.Id> {
    seq(|items|, i requires 0 <= i < |items| => items[i].id)
  }

  function SlotIds(slots: seq<Option<Item>>): seq<Option<Runs.Id>> {
    seq(|slots|, i requires 0 <= i < |slots| => if slots[i].Some? then Some(slots[i].value.id) else None)
  }

  /** The activations around a turn of the processing loop, which has ended if a load was started. */
  function InLoop(frames: seq<Runs.Frame>, startedLoad: bool): seq<Runs.Frame> {
    if startedLoad then frames else frames + [Runs.AtHead]
  }

  predicate AllSome(slots: seq<Option<Item>>) {
    forall i :: 0 <= i < |slots| ==> slots[i].Some?
  }

  function Values(slots: seq<Option<Item>>): seq<Item>
    requires AllSome(slots)
  {
    seq(|slots|, i requires 0 <= i < |slots| => slots[i].value)
  }

  /** The static array of WorkQueue.cpp. `invoked` and `deleted` record what has been done with items. */
  class WorkQueue {
    const theQueue: array<Option<Item>>
    var startOfQueue: nat
    var endOfQueue: nat
    var frozen: bool
    var invoked: seq<Item>
    var deleted: seq<Item>

    ghost predicate Valid()
      reads this, theQueue
    {
      && theQueue.Length == QUEUE_LENGTH && startOfQueue <= endOfQueue <= QUEUE_LENGTH
      && AllSome(theQueue[startOfQueue..endOfQueue])
    }

    /** The items that wait, the first first. */
    ghost function Pending(): seq<Item>
      requires Valid()
      reads this, theQueue
    {
      Values(theQueue[startOfQueue..endOfQueue])
    }

    /** This queue as a state of the machine whose runs are re-entrant, with what the machine knows besides. */
    ghost function AsArr(frames: seq<Runs.Frame>, created: nat): (a: Runs.Arr)
      reads this, theQueue
      ensures Valid() ==> Runs.ArrValid(a) && Runs.ArrPending(a) == IdsOf(Pending())
    {
      Runs.Arr(SlotIds(theQueue[..]), startOfQueue, endOfQueue, frozen, endOfQueue,
               Runs.Log(frames, created, IdsOf(invoked), IdsOf(deleted)))
    }

    constructor ()
      ensures Valid() && fresh(theQueue) && Pending() == [] && !frozen && invoked == deleted == []
    {
      theQueue := new Option<Item>[QUEUE_LENGTH](_ => None);
      startOfQueue, endOfQueue, frozen, invoked, deleted := 0, 0, false, [], [];
    }

    method Queue(item: Item)
      requires Valid() && endOfQueue < QUEUE_LENGTH
      modifies this, theQueue
      ensures Valid() && frozen == old(frozen) && invoked == old(invoked)
      ensures Pending() == if frozen then old(Pending()) else old(Pending()) + [item]
      ensures deleted == if frozen then old(deleted) + [item] else old(deleted)
      ensures endOfQueue <= old(endOfQueue) + 1
      ensures forall frames :: Runs.Outside(frames) ==>
        AsArr(frames, item.id + 1) == Runs.ArrNext(old(AsArr(frames, item.id)), Runs.Add)
    {
      if frozen {
        deleted := deleted + [item];
        return;
      }
      theQueue[endOfQueue] := Some(item);
      endOfQueue := endOfQueue + 1;
      assert theQueue[startOfQueue..endOfQueue] == old(theQueue[startOfQueue..endOfQueue]) + [Some(item)];
    }

    method Dequeue() returns (item: Option<Item>)
      requires Valid()
      modifies this`startOfQueue
      ensures Valid()
      ensures old(Pending()) == [] ==> item == None && Pending() == []
      ensures old(Pending()) != [] ==> item == Some(old(Pending())[0]) && Pending() == old(Pending())[1..]
      ensures startOfQueue == old(startOfQueue) + if old(Pending()) == [] then 0 else 1
    {
      if startOfQueue == endOfQueue {
        return None;
      }
      assert theQueue[startOfQueue..endOfQueue][1..] == theQueue[startOfQueue + 1..endOfQueue];
      item := theQueue[startOfQueue];
      assert item == theQueue[startOfQueue..endOfQueue][0];
      startOfQueue := startOfQueue + 1;
    }

    method Count() returns (n: nat)
      requires Valid()
      ensures n == |Pending()|
    {
      n := endOfQueue - startOfQueue;
    }

    method Clear()
      requires Valid()
      modifies this, theQueue
      ensures Valid() && Pending() == [] && endOfQueue == 0
      ensures deleted == old(deleted) + old(Pending()) && invoked == old(invoked) && frozen == old(frozen)
      ensures forall frames, created :: Runs.Outside(frames) ==>
        AsArr(frames, created) == Runs.ArrNext(old(AsArr(frames, created)), Runs.Clear)
    {
      DeleteLive();
      assert SlotIds(theQueue[..]) == Runs.Emptied(SlotIds(old(theQueue[..])), startOfQueue, endOfQueue);
      assert IdsOf(deleted) == IdsOf(old(deleted)) + IdsOf(old(Pending()));
      startOfQueue, endOfQueue := 0, 0;
    }

    /** The loop of `clear`. */
    method DeleteLive()
      requires Valid()
      modifies this`deleted, theQueue
      ensures deleted == old(deleted) + old(Pending())
      ensures theQueue[..] == Runs.Emptied(old(theQueue[..]), startOfQueue, endOfQueue)
    {
      ghost var pending, slots := Pending(), theQueue[..];
      assert forall k :: startOfQueue <= k < endOfQueue ==>
        slots[k] == slots[startOfQueue..endOfQueue][k - startOfQueue];
      for i := startOfQueue to endOfQueue
        invariant forall k :: 0 <= k < theQueue.Length ==>
          theQueue[k] == if startOfQueue <= k < i then None else slots[k]
        invariant deleted == old(deleted) + pending[..i - startOfQueue]
      {
        ghost var n := i - startOfQueue;
        assert slots[i] == Some(pending[n]) && pending[..n + 1] == pending[..n] + [pending[n]];
        deleted := deleted + [theQueue[i].value];
        theQueue[i] := None;
      }
    }

    /** One turn of the processing loop. */
    method ProcessOne() returns (startedLoad: bool)
      requires Valid() && Pending() != []
      modifies this`startOfQueue, this`invoked, this`deleted
      ensures Valid() && Pending() == old(Pending())[1..]
      ensures startedLoad == old(Pending())[0].startsLoad
      ensures forall frames, created ::
        Runs.ArrReaches(old(AsArr(InLoop(frames, false), created)), AsArr(InLoop(frames, startedLoad), created))
      ensures invoked == old(invoked) + [old(Pending())[0]] && deleted == old(deleted) + [old(Pending())[0]]
    {
      var item := Dequeue();
      invoked := invoked + [item.value];
      startedLoad := item.value.startsLoad;
      deleted := deleted + [item.value];
      assert IdsOf(invoked) == IdsOf(old(invoked)) + [item.value.id];
      assert IdsOf(deleted) == IdsOf(old(deleted)) + [item.value.id];
      forall frames, created
        ensures Runs.ArrReaches(old(AsArr(InLoop(frames, false), created)), AsArr(InLoop(frames, startedLoad), created))
      {
        ghost var a := old(AsArr(InLoop(frames, false), created));
        assert Some(old(Pending())[0]) == old(theQueue[startOfQueue..endOfQueue])[0];
        Runs.ArrTurn(a, frames, item.value.id, startedLoad);
        assert Runs.ArrTurned(a, frames, item.value.id, startedLoad) == AsArr(InLoop(frames, startedLoad), created);
      }
    }

    /** The call of the processing function, and its return when nothing is pending, are steps of the machine. */
    lemma CallAndReturn(frames: seq<Runs.Frame>, created: nat)
      requires Valid()
      ensures Runs.Outside(frames) ==> Runs.ArrReaches(AsArr(frames, created), AsArr(InLoop(frames, false), created))
      ensures Pending() == [] ==> Runs.ArrReaches(AsArr(InLoop(frames, false), created), AsArr(frames, created))
    {
      if Runs.Outside(frames) {
        ReachStep(Runs.ArrStep, AsArr(frames, created), Runs.Begin, AsArr(InLoop(frames, false), created));
      }
      if Pending() == [] {
        assert Runs.Pop(frames + [Runs.AtHead]) == frames;
        ReachStep(Runs.ArrStep, AsArr(InLoop(frames, false), created), Runs.Return, AsArr(frames, created));
      }
    }

    /** One call invokes and deletes exactly the shortest prefix that ends in a load. */
    method ProcessWork() returns (done: bool)
      requires Valid()
      modifies this`startOfQueue, this`invoked, this`deleted
      ensures Valid()
      ensures var n := Batch(old(Pending()));
        Pending() == old(Pending())[n..]
        && invoked == old(invoked) + old(Pending())[..n] && deleted == old(deleted) + old(Pending())[..n]
      ensures done <==> !StartsLoad(old(Pending()))
      ensures forall frames, created :: Runs.Outside(frames) ==>
        Runs.ArrReaches(old(AsArr(frames, created)), AsArr(frames, created))
    {
      ghost var pending, n := Pending(), 0;
      var startedLoad := false;
      var count := Count();
      forall frames, created | Runs.Outside(frames)
        ensures Runs.ArrReaches(AsArr(frames, created), AsArr(InLoop(frames, false), created))
      {
        CallAndReturn(frames, created);
      }
      while !startedLoad && count > 0
        invariant Valid() && count == |Pending()|
        invariant InBatch(pending, n, startedLoad) && Pending() == pending[n..]
        invariant invoked == old(invoked) + pending[..n] && deleted == old(deleted) + pending[..n]
        invariant forall frames, created :: Runs.Outside(frames) ==>
          Runs.ArrReaches(old(AsArr(frames, created)), AsArr(InLoop(frames, startedLoad), created))
        decreases count
      {
        BatchStep(pending, n);
        label Before:
        startedLoad := ProcessOne();
        forall frames, created | Runs.Outside(frames)
          ensures Runs.ArrReaches(old(AsArr(frames, created)), AsArr(InLoop(frames, startedLoad), created))
        {
          ReachOn(Runs.ArrStep, old(AsArr(frames, created)), old@Before(AsArr(InLoop(frames, false), created)),
                            AsArr(InLoop(frames, startedLoad), created));
        }
        n := n + 1;
        count := Count();
      }
      BatchDone(pending, n, startedLoad);
      forall frames, created | Runs.Outside(frames) && !startedLoad
        ensures Runs.ArrReaches(old(AsArr(frames, created)), AsArr(frames, created))
      {
        CallAndReturn(frames, created);
        ReachOn(Runs.ArrStep, old(AsArr(frames, created)), AsArr(InLoop(frames, false), created),
                AsArr(frames, created));
      }
      done := !startedLoad;
    }
  }

  /** The deque of WorkQueueManager.cpp. */
  class WorkQueueManager {
    var workQueue: seq<Item>
    var processing: bool
    var invoked: seq<Item>
    var deleted: seq<Item>

    /** This queue as a state of the machine whose runs are re-entrant. */
    ghost function AsDeq(frames: seq<Runs.Frame>, created: nat): Runs.Deq
      reads this
    {
      Runs.Deq(IdsOf(workQueue), processing, Runs.Log(frames, created, IdsOf(invoked), IdsOf(deleted)))
    }

    constructor ()
      ensures workQueue == invoked == deleted == [] && !processing
    {
      workQueue, processing, invoked, deleted := [], false, [], [];
    }

    method ClearWorkQueue()
      modifies this
      ensures workQueue == [] && !processing && invoked == old(invoked) && deleted == old(deleted) + old(workQueue)
      ensures forall frames, created :: Runs.Outside(frames) ==>
        AsDeq(frames, created) == Runs.DeqNext(old(AsDeq(frames, created)), Runs.Clear)
    {
      processing := false;
      deleted := deleted + workQueue;
      workQueue := [];
      assert IdsOf(deleted) == IdsOf(old(deleted)) + IdsOf(old(workQueue));
    }

    method Enqueue(item: Item)
      modifies this
      ensures processing == old(processing) && invoked == old(invoked)
      ensures workQueue == if processing then old(workQueue) else old(workQueue) + [item]
      ensures deleted == if processing then old(deleted) + [item] else old(deleted)
      ensures forall frames :: Runs.Outside(frames) ==>
        AsDeq(frames, item.id + 1) == Runs.DeqNext(old(AsDeq(frames, item.id)), Runs.Add)
    {
      if processing {
        deleted := deleted + [item];
        assert IdsOf(deleted) == IdsOf(old(deleted)) + [item.id];
        return;
      }
      workQueue := workQueue + [item];
      assert IdsOf(workQueue) == IdsOf(old(workQueue)) + [item.id];
    }

    /** One turn of the processing loop. */
    method ProcessFirst()
      requires workQueue != [] && !processing
      modifies this
      ensures workQueue == old(workQueue)[1..] && processing == old(workQueue)[0].startsLoad
      ensures invoked == old(invoked) + [old(workQueue)[0]] && deleted == old(deleted) + [old(workQueue)[0]]
      ensures forall frames, created ::
        Runs.DeqReaches(old(AsDeq(InLoop(frames, false), created)), AsDeq(InLoop(frames, processing), created))
    {
      var item := workQueue[0];
      workQueue := workQueue[1..];
      invoked := invoked + [item];
      processing := item.startsLoad;
      deleted := deleted + [item];
      assert IdsOf(workQueue) == IdsOf(old(workQueue))[1..];
      assert IdsOf(invoked) == IdsOf(old(invoked)) + [item.id] && IdsOf(deleted) == IdsOf(old(deleted)) + [item.id];
      forall frames, created
        ensures Runs.DeqReaches(old(AsDeq(InLoop(frames, false), created)), AsDeq(InLoop(frames, processing), created))
      {
        Runs.DeqTurn(old(AsDeq(InLoop(frames, false), created)), frames, processing);
      }
    }

    /** The call of the processing function resets the flag. */
    method Begin()
      modifies this`processing
      ensures !processing
      ensures forall frames, created :: Runs.Outside(frames) ==>
        Runs.DeqReaches(old(AsDeq(frames, created)), AsDeq(InLoop(frames, false), created))
    {
      processing := false;
      forall frames, created | Runs.Outside(frames)
        ensures Runs.DeqReaches(old(AsDeq(frames, created)), AsDeq(InLoop(frames, false), created))
      {
        ReachStep(Runs.DeqStep, old(AsDeq(frames, created)), Runs.Begin, AsDeq(InLoop(frames, false), created));
      }
    }

    lemma Returns(frames: seq<Runs.Frame>, created: nat)
      requires workQueue == []
      ensures Runs.DeqReaches(AsDeq(InLoop(frames, false), created), AsDeq(frames, created))
    {
      assert Runs.Pop(frames + [Runs.AtHead]) == frames;
      ReachStep(Runs.DeqStep, AsDeq(InLoop(frames, false), created), Runs.Return, AsDeq(frames, created));
    }

    /** The same prefix as the array takes; the flag stays set while a load is waited for. */
    method ProcessWorkQueue() returns (done: bool)
      modifies this
      ensures var n := Batch(old(workQueue));
        workQueue == old(workQueue)[n..]
        && invoked == old(invoked) + old(workQueue)[..n] && deleted == old(deleted) + old(workQueue)[..n]
      ensures done <==> !StartsLoad(old(workQueue))
      ensures processing == !done
      ensures forall frames, created :: Runs.Outside(frames) ==>
        Runs.DeqReaches(old(AsDeq(frames, created)), AsDeq(frames, created))
    {
      ghost var pending, n := workQueue, 0;
      Begin();
      while !processing && workQueue != []
        invariant InBatch(pending, n, processing) && workQueue == pending[n..]
        invariant invoked == old(invoked) + pending[..n] && deleted == old(deleted) + pending[..n]
        invariant forall frames, created :: Runs.Outside(frames) ==>
          Runs.DeqReaches(old(AsDeq(frames, created)), AsDeq(InLoop(frames, processing), created))
        decreases |workQueue|
      {
        BatchStep(pending, n);
        label Before:
        ProcessFirst();
        forall frames, created | Runs.Outside(frames)
          ensures Runs.DeqReaches(old(AsDeq(frames, created)), AsDeq(InLoop(frames, processing), created))
        {
          ReachOn(Runs.DeqStep, old(AsDeq(frames, created)), old@Before(AsDeq(InLoop(frames, false), created)),
                            AsDeq(InLoop(frames, processing), created));
        }
        n := n + 1;
      }
      BatchDone(pending, n, processing);
      forall frames, created | Runs.Outside(frames) && !processing
        ensures Runs.DeqReaches(old(AsDeq(frames, created)), AsDeq(frames, created))
      {
        Returns(frames, created);
        ReachOn(Runs.DeqStep, old(AsDeq(frames, created)), AsDeq(InLoop(frames, false), created),
                AsDeq(frames, created));
      }
      done := !processing;
    }
  }
}
