/**
 * JavaScriptThreading.cpp: four JavaScript threads that replace themselves until they are told to stop.
 *
 * Each step of the model is one critical section of the mutex, or one action between critical sections. A
 * thread's identifier is its position in the order of creation.
 */
module ThreadPool {
  import opened Options
  import opened Transitions

  const JAVASCRIPT_THREADS_COUNT: nat := 4

  /** Where a thread stands in `runJavaScriptThread`. */
  datatype Pc =
    | CreateContext | CreateScript
    | Evaluate | MakeObjects | CheckFlag
    | Decide   // has seen the flag unset, and draws whether to respawn
    | Respawn  // waits for the mutex to detach itself and create its replacement
    | Release | Done

  datatype Worker = Worker(pc: Pc, detached: bool)

  /** Where the main thread stands: `startJavaScriptThreads`, then `stopJavaScriptThreads`. */
  datatype Phase =
    | NotStarted
    | Running
    | FlagSet
    | Waiting(threads: seq<nat>, next: nat)
    | Cleared

  datatype Pool = Pool(workers: seq<Worker>, threads: set<nat>, shouldTerminate: bool, phase: Phase)

  const INITIAL := Pool([], {}, false, NotStarted)

  datatype Action =
    | Start
    | SetFlag
    | CopyThreads(order: seq<nat>)
    | WaitForNext
    | ClearThreads
    | Work(worker: nat, respawn: bool)  // `respawn` is the outcome of the draw

  // ---------------------------------------------------------------- the steps

  ghost predicate Enumerates(order: seq<nat>, ids: set<nat>) {
    && (forall i :: 0 <= i < |order| ==> order[i] in ids)
    && (forall id :: id in ids ==> id in order)
    && (forall i, j :: 0 <= i < j < |order| ==> order[i] != order[j])
  }

  /** A thread can be waited for once it has exited; a detached one cannot be joined, and does not block. */
  predicate Waitable(s: Pool, id: nat) {
    id < |s.workers| && (s.workers[id].pc.Done? || s.workers[id].detached)
  }

  ghost predicate Enabled(s: Pool, a: Action) {
    match a
    case Start => s.phase.NotStarted?
    case SetFlag => s.phase.Running?
    case CopyThreads(order) => s.phase.FlagSet? && Enumerates(order, s.threads)
    case WaitForNext =>
      s.phase.Waiting? && s.phase.next < |s.phase.threads| && Waitable(s, s.phase.threads[s.phase.next])
    case ClearThreads => s.phase.Waiting? && s.phase.next == |s.phase.threads|
    case Work(i, _) => i < |s.workers| && !s.workers[i].pc.Done?
  }

  /** The next program point of a thread that neither exits nor respawns here. */
  function After(pc: Pc, shouldTerminate: bool, respawn: bool): Pc {
    match pc
    case CreateContext => CreateScript
    case CreateScript => Evaluate
    case Evaluate => MakeObjects
    case MakeObjects => CheckFlag
    case CheckFlag => if shouldTerminate then Release else Decide
    case Decide => if respawn then Respawn else Evaluate
    case Respawn => Release
    case Release => Done
    case Done => Done
  }

  function WorkStep(s: Pool, i: nat, respawn: bool): Pool
    requires i < |s.workers|
  {
    var w := s.workers[i];
    var pc := After(w.pc, s.shouldTerminate, respawn);
    if w.pc.Respawn? then
      s.(workers := s.workers[i := Worker(pc, true)] + [Worker(CreateContext, false)],
         threads := s.threads - {i} + {|s.workers|})
    else
      s.(workers := s.workers[i := w.(pc := pc)])
  }

  function Next(s: Pool, a: Action): Pool
    requires a.Work? ==> a.worker < |s.workers|
  {
    match a
    case Start =>
      s.(workers := seq(JAVASCRIPT_THREADS_COUNT, _ => Worker(CreateContext, false)),
         threads := {0, 1, 2, 3},
         phase := Running)
    case SetFlag => s.(shouldTerminate := true, phase := FlagSet)
    case CopyThreads(order) => s.(phase := Waiting(order, 0))
    case WaitForNext => if s.phase.Waiting? then s.(phase := Waiting(s.phase.threads, s.phase.next + 1)) else s
    case ClearThreads => s.(threads := {}, phase := Cleared)
    case Work(i, respawn) => WorkStep(s, i, respawn)
  }

  ghost function Step(s: Pool, a: Action): Option<Pool> {
    if Enabled(s, a) then Some(Next(s, a)) else None
  }

  ghost predicate Reachable(s: Pool) {
    CanReach(Step, INITIAL, s)
  }

  // ---------------------------------------------------------------- what every step keeps

  function Undetached(s: Pool): set<nat> {
    set i: nat | 0 <= i < |s.workers| && !s.workers[i].detached
  }

  /** The threads that have seen the flag unset and have not acted on it yet. */
  function Window(s: Pool): set<nat> {
    set i: nat | 0 <= i < |s.workers| && s.workers[i].pc in {Decide, Respawn}
  }

  ghost predicate Inv(s: Pool) {
    && (s.shouldTerminate <==> s.phase.FlagSet? || s.phase.Waiting? || s.phase.Cleared?)
    && (forall w :: w in s.workers && w.detached ==> w.pc.Release? || w.pc.Done?)
    && (s.phase.NotStarted? ==> s.workers == [] && s.threads == {})
    && (s.phase.Running? || s.phase.FlagSet? || s.phase.Waiting? ==>
          s.threads == Undetached(s) && |s.threads| == JAVASCRIPT_THREADS_COUNT)
    && (s.phase.Waiting? ==>
          && |s.phase.threads| == JAVASCRIPT_THREADS_COUNT && s.phase.next <= |s.phase.threads|
          && (forall i :: 0 <= i < |s.phase.threads| ==> s.phase.threads[i] < |s.workers|)
          && (forall i :: 0 <= i < s.phase.next ==> Waitable(s, s.phase.threads[i]))
          && (forall i :: i in Window(s) ==> i in s.phase.threads))
    && (s.phase.Cleared? ==> Window(s) == {})
  }

  lemma WindowIsUndetached(s: Pool)
    requires Inv(s)
    ensures Window(s) <= Undetached(s)
  {
    forall i | i in Window(s)
      ensures i in Undetached(s)
    {
      assert s.workers[i] in s.workers;
    }
  }

  lemma StartKeeps(s: Pool)
    requires Inv(s) && Enabled(s, Start)
    ensures Inv(Next(s, Start))
  {
    var t := Next(s, Start);
    assert t.threads == {0, 1, 2, 3};
    assert Undetached(t) == t.threads;
  }

  /** The ids a sequence without repetition enumerates are as many as it is long. */
  lemma {:induction false} EnumerationSize(order: seq<nat>, ids: set<nat>)
    requires Enumerates(order, ids)
    ensures |order| == |ids|
  {
    if order == [] {
      assert ids == {};
    } else {
      var last := |order| - 1;
      var rest := order[..last];
      forall id | id in ids - {order[last]}
        ensures id in rest
      {
        assert id in order;
      }
      EnumerationSize(rest, ids - {order[last]});
    }
  }

  lemma CopyKeeps(s: Pool, order: seq<nat>)
    requires Inv(s) && Enabled(s, CopyThreads(order))
    ensures Inv(Next(s, CopyThreads(order)))
  {
    EnumerationSize(order, s.threads);
    WindowIsUndetached(s);
    assert Undetached(Next(s, CopyThreads(order))) == Undetached(s);
    assert Window(Next(s, CopyThreads(order))) == Window(s);
  }

  lemma WaitKeeps(s: Pool)
    requires Inv(s) && Enabled(s, WaitForNext)
    ensures Inv(Next(s, WaitForNext))
  {
    assert Undetached(Next(s, WaitForNext)) == Undetached(s);
    assert Window(Next(s, WaitForNext)) == Window(s);
  }

  /** When every copied thread has been waited for, no thread is left that could still respawn. */
  lemma ClearKeeps(s: Pool)
    requires Inv(s) && Enabled(s, ClearThreads)
    ensures Inv(Next(s, ClearThreads))
  {
    WindowIsUndetached(s);
    assert forall k :: 0 <= k < |s.phase.threads| ==> s.phase.threads[k] !in Window(s);
    assert Window(Next(s, ClearThreads)) == Window(s) == {};
  }

  /** An ordinary step of a thread. */
  lemma MoveKeeps(s: Pool, i: nat, respawn: bool)
    requires Inv(s) && Enabled(s, Work(i, respawn)) && !s.workers[i].pc.Respawn?
    ensures Inv(WorkStep(s, i, respawn))
  {
    var t := WorkStep(s, i, respawn);
    assert s.workers[i] in s.workers;
    assert Undetached(t) == Undetached(s);
    if s.shouldTerminate {
      assert Window(t) <= Window(s);
    }
  }

  /** A thread hands over to its replacement. */
  lemma RespawnKeeps(s: Pool, i: nat, respawn: bool)
    requires Inv(s) && Enabled(s, Work(i, respawn)) && s.workers[i].pc.Respawn?
    ensures Inv(WorkStep(s, i, respawn))
  {
    var t := WorkStep(s, i, respawn);
    assert i in Window(s);
    WindowIsUndetached(s);
    assert Undetached(t) == Undetached(s) - {i} + {|s.workers|};
    assert Window(t) == Window(s) - {i};
  }

  lemma StepKeeps(s: Pool, a: Action)
    requires Inv(s) && Enabled(s, a)
    ensures Inv(Next(s, a))
  {
    match a
    case Start => StartKeeps(s);
    case SetFlag =>
      assert Undetached(Next(s, a)) == Undetached(s);
    case CopyThreads(order) => CopyKeeps(s, order);
    case WaitForNext => WaitKeeps(s);
    case ClearThreads => ClearKeeps(s);
    case Work(i, respawn) =>
      if s.workers[i].pc.Respawn? {
        RespawnKeeps(s, i, respawn);
      } else {
        MoveKeeps(s, i, respawn);
      }
  }

  lemma InvKept(s: Pool, t: Pool)
    requires Inv(s) && CanReach(Step, s, t)
    ensures Inv(t)
  {
    forall x, a | Inv(x) && Step(x, a).Some?
      ensures Inv(Step(x, a).value)
    {
      StepKeeps(x, a);
    }
    var run :| Leads(Step, s, run, t);
    RunKeeps(Step, Inv, s, run, t);
  }

  lemma ReachableInv(s: Pool)
    requires Reachable(s)
    ensures Inv(s)
  {
    assert Window(INITIAL) == {};
    InvKept(INITIAL, s);
  }

  /**
   * From start until stop clears it, the thread set holds exactly four threads: those that were created and
   * have not detached themselves.
   */
  lemma FourThreads(s: Pool)
    requires Reachable(s) && !s.phase.NotStarted? && !s.phase.Cleared?
    ensures s.threads == Undetached(s) && |s.threads| == 4
  {
    ReachableInv(s);
  }

  /** So the size assertion in stop holds whatever order the set is copied in. */
  lemma CopiedFour(s: Pool, order: seq<nat>)
    requires Reachable(s) && Enabled(s, CopyThreads(order))
    ensures |order| == JAVASCRIPT_THREADS_COUNT
  {
    FourThreads(s);
    EnumerationSize(order, s.threads);
  }

  // ---------------------------------------------------------------- after the flag

  /** After the flag, no thread enters the window, and a thread is created only by leaving it. */
  lemma SpawnLeavesWindow(s: Pool, a: Action)
    requires Inv(s) && s.shouldTerminate && Enabled(s, a)
    ensures Next(s, a).shouldTerminate
    ensures |s.workers| <= |Next(s, a).workers|
    ensures |Next(s, a).workers| + |Window(Next(s, a))| <= |s.workers| + |Window(s)|
  {
    var t := Next(s, a);
    if a.Work? {
      var i := a.worker;
      if s.workers[i].pc.Respawn? {
        assert i in Window(s);
        assert Window(t) == Window(s) - {i};
      } else {
        assert Window(t) <= Window(s);
        SubsetSize(Window(t), Window(s));
      }
    } else {
      assert Window(t) == Window(s);
    }
  }

  lemma {:induction false} SubsetSize(a: set<nat>, b: set<nat>)
    requires a <= b
    ensures |a| <= |b|
  {
    if x :| x in a {
      SubsetSize(a - {x}, b - {x});
    }
  }

  lemma {:induction false} SpawnsBounded(s: Pool, run: seq<Action>, t: Pool)
    requires Inv(s) && s.shouldTerminate && Leads(Step, s, run, t)
    ensures t.shouldTerminate && |t.workers| + |Window(t)| <= |s.workers| + |Window(s)|
    decreases run
  {
    if run != [] {
      SpawnLeavesWindow(s, run[0]);
      StepKeeps(s, run[0]);
      SpawnsBounded(Next(s, run[0]), run[1..], t);
    }
  }

  /** Once the flag is set, at most four more threads are ever created, in any interleaving. */
  lemma AtMostFourMore(s: Pool, run: seq<Action>, t: Pool)
    requires Reachable(s) && s.shouldTerminate && Leads(Step, s, run, t)
    ensures |t.workers| <= |s.workers| + 4
  {
    ReachableInv(s);
    SpawnsBounded(s, run, t);
    WindowIsUndetached(s);
    if !s.phase.Cleared? {
      SubsetSize(Window(s), s.threads);
    }
  }

  /** How many steps a thread has left once the flag is set, those of its replacement included. */
  function Rank(w: Worker): nat {
    match w.pc
    case Decide => 9
    case Respawn => 8
    case CreateContext => 6
    case CreateScript => 5
    case Evaluate => 4
    case MakeObjects => 3
    case CheckFlag => 2
    case Release => 1
    case Done => 0
  }

  function StepsLeft(workers: seq<Worker>): nat {
    if workers == [] then 0 else Rank(workers[0]) + StepsLeft(workers[1..])
  }

  lemma {:induction false} StepsLeftUpdate(workers: seq<Worker>, i: nat, w: Worker)
    requires i < |workers|
    ensures StepsLeft(workers[i := w]) == StepsLeft(workers) - Rank(workers[i]) + Rank(w)
  {
    if i == 0 {
      assert workers[i := w][1..] == workers[1..];
    } else {
      assert workers[i := w][1..] == workers[1..][i - 1 := w];
      StepsLeftUpdate(workers[1..], i - 1, w);
    }
  }

  lemma {:induction false} StepsLeftAppend(workers: seq<Worker>, w: Worker)
    ensures StepsLeft(workers + [w]) == StepsLeft(workers) + Rank(w)
  {
    if workers == [] {
      assert workers + [w] == [w];
    } else {
      assert (workers + [w])[1..] == workers[1..] + [w];
      StepsLeftAppend(workers[1..], w);
    }
  }

  /** Every step of a thread uses up at least one of the steps left; the main thread's steps use none. */
  lemma WorkUsesSteps(s: Pool, a: Action)
    requires s.shouldTerminate && Enabled(s, a) && (a.Start? ==> !s.phase.NotStarted?)
    ensures StepsLeft(Next(s, a).workers) + (if a.Work? then 1 else 0) <= StepsLeft(s.workers)
  {
    if a.Work? {
      var i, w := a.worker, s.workers[a.worker];
      var pc := After(w.pc, s.shouldTerminate, a.respawn);
      if w.pc.Respawn? {
        StepsLeftUpdate(s.workers, i, Worker(pc, true));
        StepsLeftAppend(s.workers[i := Worker(pc, true)], Worker(CreateContext, false));
      } else {
        StepsLeftUpdate(s.workers, i, w.(pc := pc));
      }
    }
  }

  function WorkCount(run: seq<Action>): nat {
    if run == [] then 0 else (if run[0].Work? then 1 else 0) + WorkCount(run[1..])
  }

  /** In any run after the flag, the threads together take no more steps than were left. */
  lemma {:induction false} ThreadsExit(s: Pool, run: seq<Action>, t: Pool)
    requires Inv(s) && s.shouldTerminate && Leads(Step, s, run, t)
    ensures WorkCount(run) + StepsLeft(t.workers) <= StepsLeft(s.workers)
    decreases run
  {
    if run != [] {
      WorkUsesSteps(s, run[0]);
      StepKeeps(s, run[0]);
      SpawnLeavesWindow(s, run[0]);
      ThreadsExit(Next(s, run[0]), run[1..], t);
    }
  }

  /** While steps are left, some thread can take one: a run that cannot go on has no thread left alive. */
  lemma {:induction false} LiveThreadCanStep(workers: seq<Worker>)
    ensures StepsLeft(workers) == 0 <==> forall w :: w in workers ==> w.pc.Done?
  {
    if workers != [] {
      LiveThreadCanStep(workers[1..]);
      assert workers == [workers[0]] + workers[1..];
    }
  }

  /**
   * Until the flag is set, a thread that never draws to respawn goes round: four steps bring it from evaluating the
   * script back there, and change nothing else.
   */
  lemma ThreadGoesRound(s: Pool, i: nat)
    requires !s.shouldTerminate && i < |s.workers| && s.workers[i].pc.Evaluate?
    ensures var step := Work(i, false);
      var t := Next(Next(Next(s, step), step), step);
      t.workers[i].pc.Decide? && Next(t, step) == s
  {
    var step := Work(i, false);
    var t := Next(Next(Next(s, step), step), step);
    assert Next(t, step).workers == s.workers;
  }

  // ---------------------------------------------------------------- stop returns

  /** How many steps the main thread has left once the flag is set: the copy, the waits and the clearing. */
  function MainLeft(phase: Phase): nat {
    match phase
    case FlagSet => JAVASCRIPT_THREADS_COUNT + 2
    case Waiting(threads, next) => if next <= |threads| then |threads| - next + 1 else 0
    case _ => 0
  }

  function Left(s: Pool): nat {
    StepsLeft(s.workers) + MainLeft(s.phase)
  }

  /** After the flag, every step of any thread uses up at least one of the steps left. */
  lemma StepUsesOne(s: Pool, a: Action)
    requires Inv(s) && s.shouldTerminate && Enabled(s, a)
    ensures Left(Next(s, a)) + 1 <= Left(s)
  {
    WorkUsesSteps(s, a);
    if a.CopyThreads? {
      EnumerationSize(a.order, s.threads);
    }
  }

  lemma {:induction false} RunUsesLength(s: Pool, run: seq<Action>, t: Pool)
    requires Inv(s) && s.shouldTerminate && Leads(Step, s, run, t)
    ensures Inv(t) && t.shouldTerminate && |run| + Left(t) <= Left(s)
    decreases run
  {
    if run != [] {
      StepUsesOne(s, run[0]);
      StepKeeps(s, run[0]);
      SpawnLeavesWindow(s, run[0]);
      RunUsesLength(Next(s, run[0]), run[1..], t);
    }
  }

  lemma {:induction false} Enumeration(ids: set<nat>) returns (order: seq<nat>)
    ensures Enumerates(order, ids)
  {
    order := [];
    if id :| id in ids {
      var rest := Enumeration(ids - {id});
      order := rest + [id];
    }
  }

  /** No thread can take a step. */
  ghost predicate Stuck(s: Pool) {
    forall a :: !Enabled(s, a)
  }

  /** Stop has returned and all threads have exited. */
  ghost predicate Finished(s: Pool) {
    s.phase.Cleared? && forall w :: w in s.workers ==> w.pc.Done?
  }

  lemma StuckIsFinished(s: Pool)
    requires Inv(s) && s.shouldTerminate
    ensures Stuck(s) <==> Finished(s)
  {
    if Stuck(s) {
      forall i | 0 <= i < |s.workers|
        ensures s.workers[i].pc.Done?
      {
        assert !Enabled(s, Work(i, true));
      }
      if s.phase.FlagSet? {
        var order := Enumeration(s.threads);
        assert Enabled(s, CopyThreads(order));
      }
      if s.phase.Waiting? {
        NobodyWaits(s);
      }
    }
  }

  /** When all threads have exited, stop can go on waiting or clear the set. */
  lemma NobodyWaits(s: Pool)
    requires Inv(s) && s.phase.Waiting? && forall i :: 0 <= i < |s.workers| ==> s.workers[i].pc.Done?
    ensures Enabled(s, WaitForNext) || Enabled(s, ClearThreads)
  {
  }

  /**
   * Once the flag is set, every run has a bounded length, and one that cannot go on has ended: stop has returned
   * and every thread has exited.
   */
  lemma StopReturns(s: Pool, run: seq<Action>, t: Pool)
    requires Reachable(s) && s.shouldTerminate && Leads(Step, s, run, t)
    ensures |run| <= Left(s) && (Stuck(t) <==> Finished(t))
  {
    ReachableInv(s);
    RunUsesLength(s, run, t);
    StuckIsFinished(t);
  }

  // ---------------------------------------------------------------- whom stop waits for

  /** A thread that stop is going to wait for has detached itself, so that it can no longer be joined. */
  ghost predicate WaitsForDetached(s: Pool) {
    s.phase.Waiting? && exists id :: id in s.phase.threads && id < |s.workers| && s.workers[id].detached
  }

  /** No copied thread is detached or can still become so. */
  ghost predicate Settled(s: Pool) {
    s.phase.Waiting? ==>
      Window(s) == {} && forall id :: id in s.phase.threads ==> id < |s.workers| && !s.workers[id].detached
  }

  lemma SettledStep(s: Pool, a: Action)
    requires Inv(s) && s.shouldTerminate && !s.phase.FlagSet? && Settled(s) && Enabled(s, a)
    ensures Settled(Next(s, a)) && !Next(s, a).phase.FlagSet?
  {
    var t := Next(s, a);
    if t.phase.Waiting? {
      if a.Work? {
        assert a.worker !in Window(s);
        assert Window(t) <= Window(s);
      } else {
        assert Window(t) == Window(s);
      }
    }
  }

  /** Nothing changes that once the set has been copied. */
  ghost predicate SettledAfterCopy(s: Pool) {
    Inv(s) && s.shouldTerminate && !s.phase.FlagSet? && Settled(s)
  }

  lemma SettledRun(s: Pool, t: Pool)
    requires SettledAfterCopy(s) && CanReach(Step, s, t)
    ensures Settled(t)
  {
    forall x, a | SettledAfterCopy(x) && Step(x, a).Some?
      ensures SettledAfterCopy(Step(x, a).value)
    {
      SettledStep(x, a);
      StepKeeps(x, a);
      SpawnLeavesWindow(x, a);
    }
    var run :| Leads(Step, s, run, t);
    RunKeeps(Step, SettledAfterCopy, s, run, t);
  }

  /** A thread in the window can go on to detach itself. */
  lemma WindowDetaches(s: Pool, i: nat) returns (t: Pool)
    requires s.phase.Waiting? && i in Window(s) && i in s.phase.threads
    ensures CanReach(Step, s, t) && WaitsForDetached(t)
  {
    var step := Work(i, true);
    var u := if s.workers[i].pc.Respawn? then s else Next(s, step);
    ReachSelf(Step, s);
    if !s.workers[i].pc.Respawn? {
      ReachNext(s, s, step);
    }
    t := Next(u, step);
    ReachNext(s, u, step);
    assert t.workers[i].detached && i in t.phase.threads;
  }

  /**
   * Stop copies the thread set in a critical section of its own. It waits for joinable threads only, in every
   * run from there, exactly when no thread has seen the flag unset and not acted on it yet.
   */
  lemma StopWaitsForJoinable(s: Pool, order: seq<nat>)
    requires Reachable(s) && Enabled(s, CopyThreads(order))
    ensures Window(s) == {}
      <==> forall t :: CanReach(Step, Next(s, CopyThreads(order)), t) ==> !WaitsForDetached(t)
  {
    ReachableInv(s);
    StepKeeps(s, CopyThreads(order));
    var c := Next(s, CopyThreads(order));
    assert Window(c) == Window(s);
    if Window(s) == {} {
      forall t | CanReach(Step, c, t)
        ensures !WaitsForDetached(t)
      {
        SettledRun(c, t);
      }
    } else {
      var i :| i in Window(c);
      var t := WindowDetaches(c, i);
    }
  }

  lemma ReachNext(s: Pool, t: Pool, a: Action)
    requires CanReach(Step, s, t) && Enabled(t, a)
    ensures CanReach(Step, s, Next(t, a))
  {
    ReachStep(Step, t, a, Next(t, a));
    ReachOn(Step, s, t, Next(t, a));
  }

  /** Thread 0 of the fresh pool at the given point, the others not yet run. */
  function Early(pc: Pc, shouldTerminate: bool, phase: Phase): Pool {
    var other := Worker(CreateContext, false);
    Pool([Worker(pc, false), other, other, other], {0, 1, 2, 3}, shouldTerminate, phase)
  }

  lemma EarlyStep(pc: Pc)
    requires Reachable(Early(pc, false, Running)) && !pc.Respawn? && !pc.Done?
    ensures Reachable(Early(After(pc, false, true), false, Running))
  {
    var s := Early(pc, false, Running);
    ReachNext(INITIAL, s, Work(0, true));
    assert Next(s, Work(0, true)) == Early(After(pc, false, true), false, Running);
  }

  /** The window can be open when stop sets the flag: thread 0 has just seen the flag unset. */
  lemma WindowCanBeOpen() returns (s: Pool)
    ensures Reachable(s) && s.phase.FlagSet? && Window(s) != {} && Enabled(s, CopyThreads([0, 1, 2, 3]))
  {
    ReachSelf(Step, INITIAL);
    ReachNext(INITIAL, INITIAL, Start);
    assert Next(INITIAL, Start) == Early(CreateContext, false, Running);
    EarlyStep(CreateContext);
    EarlyStep(CreateScript);
    EarlyStep(Evaluate);
    EarlyStep(MakeObjects);
    EarlyStep(CheckFlag);
    ReachNext(INITIAL, Early(Decide, false, Running), SetFlag);
    s := Early(Decide, true, FlagSet);
    assert s == Next(Early(Decide, false, Running), SetFlag);
    assert 0 in Window(s);
    assert [0, 1, 2, 3][0] == 0 && [0, 1, 2, 3][1] == 1 && [0, 1, 2, 3][2] == 2 && [0, 1, 2, 3][3] == 3;
  }

  /** So stop can come to wait for a thread that cannot be joined. */
  lemma DetachedIsWaitedFor() returns (t: Pool)
    ensures Reachable(t) && WaitsForDetached(t)
  {
    var s := WindowCanBeOpen();
    var c := Next(s, CopyThreads([0, 1, 2, 3]));
    StopWaitsForJoinable(s, [0, 1, 2, 3]);
    t :| CanReach(Step, c, t) && WaitsForDetached(t);
    ReachNext(INITIAL, s, CopyThreads([0, 1, 2, 3]));
    ReachOn(Step, INITIAL, c, t);
  }

  // ---------------------------------------------------------------- who is left when stop clears the set

  lemma AllWaited(s: Pool)
    requires Inv(s) && Enabled(s, ClearThreads)
    ensures forall id :: id in s.phase.threads ==> Waitable(s, id)
  {
    forall id | id in s.phase.threads
      ensures Waitable(s, id)
    {
      var k :| 0 <= k < |s.phase.threads| && s.phase.threads[k] == id;
    }
  }

  /** When stop has cleared the set, a thread it copied is gone, or it is detached and on its way out. */
  lemma CopiedThreadsAreLeaving(s: Pool)
    requires Reachable(s) && Enabled(s, ClearThreads)
    ensures forall id :: id in s.phase.threads ==>
      id < |s.workers| && (s.workers[id].pc.Done? || (s.workers[id].detached && s.workers[id].pc.Release?))
  {
    ReachableInv(s);
    AllWaited(s);
    forall id | id in s.phase.threads
      ensures id < |s.workers| && (s.workers[id].pc.Done? || (s.workers[id].detached && s.workers[id].pc.Release?))
    {
      assert Waitable(s, id);
      assert s.workers[id] in s.workers;
    }
  }

  /** Since the set was copied in `c`, only copied threads have detached themselves, each leaving one replacement. */
  ghost predicate Since(c: Pool, order: seq<nat>, s: Pool) {
    && s.phase.Waiting? && s.phase.threads == order && |c.workers| <= |s.workers|
    && (forall id :: id in order ==> id < |c.workers|)
    && (forall id :: id in Undetached(s) ==> id in order || id >= |c.workers|)
    && (forall id :: |c.workers| <= id < |s.workers| ==> !s.workers[id].detached)
  }

  lemma SinceStep(c: Pool, order: seq<nat>, s: Pool, a: Action)
    requires Inv(s) && Since(c, order, s) && Enabled(s, a)
    ensures Since(c, order, Next(s, a)) || Next(s, a).phase.Cleared?
  {
    var t := Next(s, a);
    if a.Work? && s.workers[a.worker].pc.Respawn? {
      assert a.worker in Window(s);
      assert a.worker in order;
    }
    forall id | id in Undetached(t) && !a.ClearThreads?
      ensures id in order || id >= |c.workers|
    {
      assert id < |s.workers| ==> id in Undetached(s);
    }
  }

  lemma SinceRun(c: Pool, order: seq<nat>, s: Pool, t: Pool)
    requires Inv(s) && Since(c, order, s) && CanReach(Step, s, t)
    ensures Since(c, order, t) || t.phase.Cleared?
  {
    var kept: Pool -> bool := x => Inv(x) && (Since(c, order, x) || x.phase.Cleared?);
    forall x, a | kept(x) && Step(x, a).Some?
      ensures kept(Step(x, a).value)
    {
      StepKeeps(x, a);
      if !x.phase.Cleared? {
        SinceStep(c, order, x, a);
      }
    }
    var run :| Leads(Step, s, run, t);
    RunKeeps(Step, kept, s, run, t);
  }

  lemma CopySince(c: Pool, order: seq<nat>)
    requires Inv(c) && Enabled(c, CopyThreads(order))
    ensures Since(c, order, Next(c, CopyThreads(order)))
  {
    assert Undetached(Next(c, CopyThreads(order))) == Undetached(c);
    forall id | id in order
      ensures id < |c.workers|
    {
      assert id in Undetached(c);
    }
  }

  function Ids(order: seq<nat>): set<nat> {
    set id | id in order
  }

  function DetachedOf(order: seq<nat>, s: Pool): set<nat> {
    set id | id in order && id < |s.workers| && s.workers[id].detached
  }

  /** The numbers from `a` to below `b`. */
  function Range(a: nat, b: nat): (r: set<nat>)
    ensures forall i :: i in r <==> a <= i < b
    ensures a <= b ==> |r| == b - a
    decreases b
  {
    if a < b then Range(a, b - 1) + {b - 1} else {}
  }

  /** As many threads have been created since the copy as copied threads have detached themselves. */
  lemma ReplacementsCounted(c: Pool, order: seq<nat>, s: Pool)
    requires Since(c, order, s) && |Ids(order)| == |Undetached(s)|
    ensures |s.workers| - |c.workers| == |DetachedOf(order, s)|
  {
    var ids, created := Ids(order), Range(|c.workers|, |s.workers|);
    forall id
      ensures id in Undetached(s) <==> id in (ids - DetachedOf(order, s)) + created
    {
      assert id in order ==> id < |c.workers|;
    }
    CountParts(Undetached(s), ids, DetachedOf(order, s), created);
  }

  lemma CountParts(all: set<nat>, ids: set<nat>, gone: set<nat>, created: set<nat>)
    requires gone <= ids && ids !! created && all == (ids - gone) + created && |all| == |ids|
    ensures |created| == |gone|
  {
    assert |(ids - gone) + created| == |ids - gone| + |created|;
    assert |ids - gone| == |ids| - |gone| by {
      assert ids == (ids - gone) + gone && (ids - gone) !! gone;
      assert |(ids - gone) + gone| == |ids - gone| + |gone|;
    }
  }

  lemma CopiedDistinct(s: Pool, order: seq<nat>)
    requires Reachable(s) && Enabled(s, CopyThreads(order))
    ensures |Ids(order)| == JAVASCRIPT_THREADS_COUNT
  {
    FourThreads(s);
    assert Ids(order) == s.threads;
  }

  /** The thread is detached and about to exit. */
  predicate Leaving(w: Worker) {
    w.detached && w.pc.Release?
  }

  /**
   * The threads that are still alive when stop clears the set: detached ones on their way out, and replacements
   * created since the copy, which will not respawn. There are as many replacements, alive or not, as copied threads
   * that detached themselves.
   */
  lemma AliveAtClear(c: Pool, order: seq<nat>, s: Pool)
    requires Reachable(c) && Enabled(c, CopyThreads(order))
    requires CanReach(Step, Next(c, CopyThreads(order)), s) && Enabled(s, ClearThreads)
    ensures forall id :: 0 <= id < |s.workers| && !s.workers[id].pc.Done? ==>
      Leaving(s.workers[id]) || (id >= |c.workers| && !s.workers[id].detached && id !in Window(s))
    ensures |c.workers| <= |s.workers| && |s.workers| - |c.workers| == |DetachedOf(order, s)|
  {
    ReachableInv(c);
    CopyKeeps(c, order);
    CopySince(c, order);
    CopiedDistinct(c, order);
    var d := Next(c, CopyThreads(order));
    InvKept(d, s);
    SinceRun(c, order, d, s);
    ReplacementsCounted(c, order, s);
    AllWaited(s);
    ClearKeeps(s);
    assert Window(s) == Window(Next(s, ClearThreads));
    forall id | 0 <= id < |s.workers| && !s.workers[id].pc.Done?
      ensures Leaving(s.workers[id]) || (id >= |c.workers| && !s.workers[id].detached)
    {
      assert s.workers[id] in s.workers;
      assert !s.workers[id].detached ==> id in Undetached(s);
      assert id in order ==> Waitable(s, id);
    }
  }

  // From any state in which stop waits, the threads can be run to their end, and the waiting ends.

  lemma FinishStep(s: Pool, i: nat) returns (u: Pool)
    requires s.shouldTerminate && i < |s.workers| && !s.workers[i].pc.Done?
    ensures Enabled(s, Work(i, true)) && u == Next(s, Work(i, true))
    ensures u.phase == s.phase && |u.workers| >= |s.workers| && Rank(u.workers[i]) < Rank(s.workers[i])
    ensures forall j :: 0 <= j < |s.workers| && j != i ==> u.workers[j] == s.workers[j]
    ensures s.workers[i].pc.Respawn? ==>
      |u.workers| > |s.workers| && u.workers[|s.workers|] == Worker(CreateContext, false)
    ensures s.workers[i].pc.Decide? ==> u.workers[i].pc.Respawn? && |u.workers| == |s.workers|
  {
    u := Next(s, Work(i, true));
  }

  lemma {:induction false} Finish(s: Pool, i: nat) returns (t: Pool)
    requires Inv(s) && s.phase.Waiting? && i < |s.workers|
    ensures CanReach(Step, s, t) && Inv(t) && t.phase == s.phase && |t.workers| >= |s.workers| && t.workers[i].pc.Done?
    ensures forall j :: 0 <= j < |s.workers| && j != i ==> t.workers[j] == s.workers[j]
    ensures s.workers[i].pc in {Decide, Respawn} ==>
      |t.workers| > |s.workers| && t.workers[|s.workers|] == Worker(CreateContext, false)
    decreases Rank(s.workers[i])
  {
    t := s;
    if s.workers[i].pc.Done? {
      ReachSelf(Step, s);
    } else {
      var u := FinishStep(s, i);
      StepKeeps(s, Work(i, true));
      t := Finish(u, i);
      ReachFirst(s, Work(i, true), t);
    }
  }

  lemma ReachFirst(s: Pool, a: Action, t: Pool)
    requires Enabled(s, a) && CanReach(Step, Next(s, a), t)
    ensures CanReach(Step, s, t)
  {
    ReachSelf(Step, s);
    ReachNext(s, s, a);
    ReachOn(Step, s, Next(s, a), t);
  }

  /** The first `k` copied threads, except those to be skipped. */
  lemma {:induction false} FinishAll(s: Pool, threads: seq<nat>, k: nat, skip: set<nat>) returns (t: Pool)
    requires Inv(s) && s.phase.Waiting? && k <= |threads| && threads == s.phase.threads
    requires forall m :: 0 <= m < |threads| ==> threads[m] < |s.workers|
    ensures CanReach(Step, s, t) && Inv(t) && t.phase == s.phase && AllFinished(s.workers, t.workers, threads, k, skip)
    decreases k
  {
    t := s;
    if k == 0 {
      ReachSelf(Step, s);
    } else {
      var u := FinishAll(s, threads, k - 1, skip);
      t := u;
      if threads[k - 1] !in skip {
        t := Finish(u, threads[k - 1]);
        ReachOn(Step, s, u, t);
        OneMoreFinished(s.workers, u.workers, t.workers, threads, k, skip);
      }
    }
  }

  /** The first `k` of the threads have exited, except those to be skipped, and no other thread has moved. */
  ghost predicate AllFinished(before: seq<Worker>, after: seq<Worker>, threads: seq<nat>, k: nat, skip: set<nat>)
    requires k <= |threads|
  {
    && |after| >= |before|
    && (forall m :: 0 <= m < |threads| ==> threads[m] < |before|)
    && (forall m :: 0 <= m < k && threads[m] !in skip ==> after[threads[m]].pc.Done?)
    && (forall j :: 0 <= j < |before| && (j !in threads || j in skip) ==> after[j] == before[j])
  }

  lemma OneMoreFinished(
    before: seq<Worker>, middle: seq<Worker>, after: seq<Worker>, threads: seq<nat>, k: nat, skip: set<nat>)
    requires 0 < k <= |threads| && threads[k - 1] !in skip && AllFinished(before, middle, threads, k - 1, skip)
    requires |after| >= |middle| && after[threads[k - 1]].pc.Done?
    requires forall j :: 0 <= j < |middle| && j != threads[k - 1] ==> after[j] == middle[j]
    ensures AllFinished(before, after, threads, k, skip)
  {
  }

  lemma {:induction false} WaitOut(s: Pool) returns (t: Pool)
    requires Inv(s) && s.phase.Waiting?
    requires forall m :: 0 <= m < |s.phase.threads| ==> Waitable(s, s.phase.threads[m])
    ensures CanReach(Step, s, t) && t.workers == s.workers && t.phase == Waiting(s.phase.threads, |s.phase.threads|)
    decreases |s.phase.threads| - s.phase.next
  {
    t := s;
    ReachSelf(Step, s);
    if s.phase.next < |s.phase.threads| {
      var u := Next(s, WaitForNext);
      WaitKeeps(s);
      t := WaitOut(u);
      ReachFirst(s, WaitForNext, t);
    }
  }

  /** All threads that are alive are on their way out. */
  ghost predicate OnlyLeaving(s: Pool) {
    forall w :: w in s.workers && !w.pc.Done? ==> Leaving(w)
  }

  /** A thread in the window at the copy can leave a replacement that has not even started at the clearing. */
  lemma ReplacementOutlives(d: Pool, i: nat) returns (s: Pool)
    requires Inv(d) && d.phase.Waiting? && i in Window(d)
    ensures CanReach(Step, d, s) && Enabled(s, ClearThreads) && !OnlyLeaving(s)
  {
    var u := Finish(d, i);
    var v := FinishAll(u, u.phase.threads, |u.phase.threads|, {});
    s := WaitOut(v);
    ReachOn(Step, d, u, v);
    ReachOn(Step, d, v, s);
    assert |d.workers| !in d.phase.threads;
    assert s.workers[|d.workers|] == Worker(CreateContext, false);
  }

  lemma DetachStep(s: Pool, i: nat) returns (t: Pool)
    requires i < |s.workers| && s.workers[i].pc.Respawn?
    ensures Enabled(s, Work(i, true)) && t == Next(s, Work(i, true))
    ensures t.phase == s.phase && i < |t.workers| && Leaving(t.workers[i])
  {
    t := Next(s, Work(i, true));
  }

  lemma DetachSelf(d: Pool, i: nat) returns (u: Pool)
    requires Inv(d) && i in Window(d)
    ensures CanReach(Step, d, u) && Inv(u) && u.phase == d.phase && i < |u.workers| && Leaving(u.workers[i])
  {
    ReachSelf(Step, d);
    var c := d;
    if d.workers[i].pc.Decide? {
      c := Next(d, Work(i, true));
      ReachNext(d, d, Work(i, true));
      assert c.workers[i].pc.Respawn? && c.phase == d.phase;
    }
    u := DetachStep(c, i);
    ReachNext(d, c, Work(i, true));
    InvKept(d, u);
  }

  /** The thread itself can also be alive then: it cannot be joined, and is not waited for. */
  lemma DetachedOutlives(d: Pool, i: nat) returns (s: Pool)
    requires Inv(d) && d.phase.Waiting? && i in Window(d)
    ensures CanReach(Step, d, s) && Enabled(s, ClearThreads) && i < |s.workers| && Leaving(s.workers[i])
    ensures i in s.phase.threads
  {
    var u := DetachSelf(d, i);
    var v := FinishAll(u, u.phase.threads, |u.phase.threads|, {i});
    ReachOn(Step, d, u, v);
    forall m | 0 <= m < |v.phase.threads|
      ensures Waitable(v, v.phase.threads[m])
    {
      assert v.phase.threads[m] == i || v.phase.threads[m] !in {i};
    }
    s := WaitOut(v);
    ReachOn(Step, d, v, s);
  }

  /**
   * When stop clears the set, only threads on their way out are left, in every run from the copy on, exactly when no
   * thread had seen the flag unset and not acted on it at the copy.
   */
  lemma OnlyLeavingRemain(c: Pool, order: seq<nat>)
    requires Reachable(c) && Enabled(c, CopyThreads(order))
    ensures Window(c) == {} <==>
      forall s :: CanReach(Step, Next(c, CopyThreads(order)), s) && Enabled(s, ClearThreads) ==> OnlyLeaving(s)
  {
    ReachableInv(c);
    CopyKeeps(c, order);
    CopySince(c, order);
    var d := Next(c, CopyThreads(order));
    assert Window(d) == Window(c);
    if Window(c) == {} {
      forall s | CanReach(Step, d, s) && Enabled(s, ClearThreads)
        ensures OnlyLeaving(s)
      {
        AliveAtClear(c, order, s);
        StopWaitsForJoinable(c, order);
        assert !WaitsForDetached(s);
        SameOrder(c, order, s);
        assert DetachedOf(order, s) == {};
      }
    } else {
      var i :| i in Window(d);
      var s := ReplacementOutlives(d, i);
    }
  }

  lemma SameOrder(c: Pool, order: seq<nat>, s: Pool)
    requires Reachable(c) && Enabled(c, CopyThreads(order))
    requires CanReach(Step, Next(c, CopyThreads(order)), s) && s.phase.Waiting?
    ensures s.phase.threads == order
  {
    ReachableInv(c);
    CopyKeeps(c, order);
    CopySince(c, order);
    var d := Next(c, CopyThreads(order));
    SinceRun(c, order, d, s);
  }
}
