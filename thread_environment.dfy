/**
 * The task registry of a thread environment and the scheduling step of
 * its worker threads, as a sequential state machine.
 *
 * Threads are not started or joined: the pool is its size and the
 * single-task mode threads are the set of handles that own one. A task
 * handle is an address and the registry is ordered by it, so a handle
 * is a natural number and the registry is iterated in increasing order.
 * What a task does when run, and whether its acquire flag was free, are
 * inputs of the step; the wake calls are recorded in a log.
 */
module ThreadEnv {

  /** The address that identifies a task. */
  type Handle = nat

  /** The least handle of a non-empty set: where iteration over the registry starts. */
  ghost function Smallest(s: set<Handle>): (m: Handle)
    requires s != {}
    ensures m in s
    ensures forall x :: x in s ==> m <= x
  {
    var x :| x in s;
    if s == {x} then x
    else
      var rest := Smallest(s - {x});
      assert forall y :: y in s ==> y == x || y in s - {x};
      if x <= rest then x else rest
  }

  /** The least element is the only one below or equal to all others. */
  lemma SmallestUnique(s: set<Handle>, m: Handle)
    requires m in s && forall x :: x in s ==> m <= x
    ensures m == Smallest(s)
  {
  }

  /** The handles of a registry in iteration order. */
  ghost function SortedKeys(s: set<Handle>): (r: seq<Handle>)
    ensures |r| == |s|
    decreases |s|
  {
    if s == {} then []
    else
      var m := Smallest(s);
      [m] + SortedKeys(s - {m})
  }

  /** The iteration order lists every handle of the registry once, in increasing order. */
  lemma {:induction false} SortedKeysFacts(s: set<Handle>)
    ensures forall h :: h in SortedKeys(s) <==> h in s
    ensures forall i, j :: 0 <= i < j < |SortedKeys(s)| ==> SortedKeys(s)[i] < SortedKeys(s)[j]
    decreases |s|
  {
    if s != {} {
      var m := Smallest(s);
      var tail := SortedKeys(s - {m});
      SortedKeysFacts(s - {m});
      var r := SortedKeys(s);
      assert r == [m] + tail;
      forall i, j | 0 <= i < j < |r| ensures r[i] < r[j] {
        assert r[j] == tail[j - 1];
        if i > 0 {
          assert r[i] == tail[i - 1];
        } else {
          assert tail[j - 1] in s - {m};
        }
      }
    }
  }

  /** Iterates a registry from its least handle up: the order of a `std::map` walk. */
  method IterationOrder(keys: set<Handle>) returns (order: seq<Handle>)
    ensures order == SortedKeys(keys)
  {
    order := [];
    var rest := keys;
    while rest != {}
      invariant order + SortedKeys(rest) == SortedKeys(keys)
      decreases |rest|
    {
      assert Smallest(rest) in rest;
      var next :| next in rest && forall x :: x in rest ==> next <= x;
      SortedKeysFrom(rest, next, order);
      order := order + [next];
      rest := rest - {next};
    }
  }

  /** Taking the least handle off the front of the walk leaves the walk of the others. */
  lemma SortedKeysFrom(s: set<Handle>, m: Handle, order: seq<Handle>)
    requires m in s && forall x :: x in s ==> m <= x
    ensures order + SortedKeys(s) == (order + [m]) + SortedKeys(s - {m})
  {
    SmallestUnique(s, m);
    assert SortedKeys(s) == [m] + SortedKeys(s - {m});
  }

  /** Taking a registered handle out of the registry: one entry fewer, the others untouched. */
  lemma RemoveOne(m: map<Handle, nat>, h: Handle, bound: nat)
    requires h in m
    ensures |m - {h}| == |m| - 1 && (m - {h}).Keys == m.Keys - {h}
    ensures (forall x :: x in m ==> m[x] < bound) ==> forall x :: x in m - {h} ==> (m - {h})[x] < bound
  {
    assert m.Keys == (m - {h}).Keys + {h};
  }

  class ThreadEnvironment {
    /** `numThreads` of the pool arguments: 0 selects one thread per task. */
    const numThreads: nat
    /** `_waitModeEnabled`. */
    const waitModeEnabled: bool
    /** `_handleToTask`: each task with the serial number of its task data. */
    var handleToTask: map<Handle, nat>
    /** The number of task data records created so far. */
    var created: nat
    /** `_configurationSignature`. */
    var configurationSignature: nat
    /** `_threadPool.size()`. */
    var poolSize: nat
    /** The handles with a dedicated thread in `_handleToThread`. */
    var handleToThread: set<Handle>
    /** The tasks whose wake callable was called, in order. */
    var wakes: seq<Handle>

    /**
     * The pool holds one thread per task up to `numThreads`; in
     * single-task mode every task has its own thread and there is no pool.
     */
    ghost predicate Valid()
      reads this
    {
      && (numThreads > 0 ==>
            && poolSize == (if |handleToTask| < numThreads then |handleToTask| else numThreads)
            && handleToThread == {})
      && (numThreads == 0 ==> poolSize == 0 && handleToThread == handleToTask.Keys)
      && forall h :: h in handleToTask ==> handleToTask[h] < created
    }

    /** Wait mode is on unless the yield mode is "SPIN"; the signature starts at 0. */
    constructor (yieldMode: string, threads: nat)
      ensures Valid()
      ensures numThreads == threads && (waitModeEnabled <==> yieldMode != "SPIN")
      ensures configurationSignature == 0
      ensures handleToTask == map[] && poolSize == 0 && handleToThread == {} && wakes == []
    {
      numThreads := threads;
      waitModeEnabled := yieldMode != "SPIN";
      handleToTask := map[];
      created := 0;
      configurationSignature := 0;
      poolSize := 0;
      handleToThread := {};
      wakes := [];
    }

    /**
     * `registerTask`: store new task data under the handle, bump the
     * signature, and start the task's own thread (single-task mode) or
     * one more pool thread while the pool is below `numThreads`.
     */
    method RegisterTask(handle: Handle)
      requires Valid() && handle !in handleToTask
      modifies this
      ensures Valid()
      ensures handleToTask == old(handleToTask)[handle := old(created)]
      ensures configurationSignature == old(configurationSignature) + 1
      ensures numThreads == 0 ==> handleToThread == old(handleToThread) + {handle}
      ensures numThreads > 0 ==>
        poolSize == (if old(poolSize) < numThreads then old(poolSize) + 1 else old(poolSize))
      ensures poolSize <= old(poolSize) + 1
      ensures wakes == old(wakes)
    {
      handleToTask := handleToTask[handle := created];
      created := created + 1;
      configurationSignature := configurationSignature + 1;
      if numThreads == 0 {
        handleToThread := handleToThread + {handle};
      } else {
        if poolSize < numThreads {
          poolSize := poolSize + 1;
        }
      }
    }

    /**
     * `unregisterTask`: take the task out, bump the signature, wake the
     * removed task and then every remaining one in registry order, and
     * stop its own thread (single-task mode) or the last pool thread
     * when the pool is larger than the task count.
     */
    method UnregisterTask(handle: Handle)
      requires Valid() && handle in handleToTask
      modifies this
      ensures Valid()
      ensures handleToTask == old(handleToTask) - {handle}
      ensures configurationSignature == old(configurationSignature) + 1
      ensures wakes == old(wakes) + [handle] + SortedKeys(handleToTask.Keys)
      ensures numThreads == 0 ==> handleToThread == old(handleToThread) - {handle}
      ensures numThreads > 0 ==>
        poolSize == (if old(poolSize) > |handleToTask| then |handleToTask| else old(poolSize))
      ensures old(poolSize) - 1 <= poolSize <= old(poolSize)
    {
      RemoveOne(handleToTask, handle, created);
      handleToTask := handleToTask - {handle};
      configurationSignature := configurationSignature + 1;

      var others := IterationOrder(handleToTask.Keys);
      wakes := wakes + [handle] + others;

      if numThreads == 0 {
        handleToThread := handleToThread - {handle};
      } else {
        if poolSize > |handleToTask| {
          poolSize := |handleToTask|;
        }
      }
    }

    /** The destructor: unregister the first task until none is left. */
    method Teardown()
      requires Valid()
      modifies this
      ensures Valid()
      ensures handleToTask == map[] && poolSize == 0 && handleToThread == {}
      ensures configurationSignature == old(configurationSignature) + |old(handleToTask)|
    {
      while handleToTask != map[]
        invariant Valid()
        invariant configurationSignature + |handleToTask|
          == old(configurationSignature) + |old(handleToTask)|
        decreases |handleToTask|
      {
        UnregisterFirst();
      }
    }

    /** One step of the destructor: unregister the task whose handle comes first in the map. */
    method UnregisterFirst()
      requires Valid() && handleToTask != map[]
      modifies this
      ensures Valid()
      ensures handleToTask == old(handleToTask) - {Smallest(old(handleToTask).Keys)}
      ensures |handleToTask| == |old(handleToTask)| - 1
      ensures configurationSignature == old(configurationSignature) + 1
    {
      var keys := handleToTask.Keys;
      assert Smallest(keys) in keys;
      var first :| first in keys && forall x :: x in keys ==> first <= x;
      assert first == Smallest(keys);
      RemoveOne(handleToTask, first, created);
      UnregisterTask(first);
    }
  }

  /**
   * `wakeAllBusyTasks`: over a worker's task snapshot, in order, skipping the
   * caller, a task whose flag was already set is woken; a free flag is
   * set and cleared again. Returns the tasks woken and the flags left.
   */
  method WakeAllBusyTasks(order: seq<Handle>, flags: map<Handle, bool>, self: Handle)
    returns (woken: seq<Handle>, after: map<Handle, bool>)
    requires forall h :: h in order ==> h in flags
    ensures after == flags
    ensures woken == BusyTasks(order, flags, self)
  {
    woken := [];
    after := flags;
    for i := 0 to |order|
      invariant after == flags
      invariant woken == BusyTasks(order[..i], flags, self)
    {
      var h := order[i];
      assert order[..i + 1] == order[..i] + [h];
      BusyTasksSnoc(order[..i], h, flags, self);
      if h == self {
        continue;
      }
      if after[h] {
        woken := woken + [h];
      } else {
        after := after[h := true];
        after := after[h := false];
        assert after == flags;
      }
    }
    assert order[..|order|] == order;
  }

  /** The tasks among `order` that are busy (flag set) and are not the caller. */
  function BusyTasks(order: seq<Handle>, flags: map<Handle, bool>, self: Handle): seq<Handle>
    requires forall h :: h in order ==> h in flags
  {
    if order == [] then []
    else
      var last := order[|order| - 1];
      BusyTasks(order[..|order| - 1], flags, self) + (if last != self && flags[last] then [last] else [])
  }

  lemma BusyTasksSnoc(order: seq<Handle>, h: Handle, flags: map<Handle, bool>, self: Handle)
    requires forall x :: x in order ==> x in flags
    requires h in flags
    ensures BusyTasks(order + [h], flags, self)
      == BusyTasks(order, flags, self) + (if h != self && flags[h] then [h] else [])
  {
    assert (order + [h])[..|order|] == order;
  }

  /** Only busy tasks are woken, never the caller, and each busy task is woken. */
  lemma {:induction false} BusyTasksExact(order: seq<Handle>, flags: map<Handle, bool>, self: Handle)
    requires forall h :: h in order ==> h in flags
    ensures forall h :: h in BusyTasks(order, flags, self) <==> h in order && h != self && flags[h]
  {
    if order != [] {
      var init := order[..|order| - 1];
      assert forall h :: h in init ==> h in order;
      BusyTasksExact(init, flags, self);
      assert order == init + [order[|order| - 1]];
    }
  }

  /** The local state of a pool worker thread. `cursor == |snapshot|` is the end iterator. */
  datatype Worker = Worker(localSignature: nat, snapshot: seq<Handle>, cursor: nat, failAcquireCount: nat)

  /** A pool thread before its first step: nothing seen yet. */
  const INITIAL_WORKER: Worker := Worker(0, [], 0, 0)

  /** What a step did with the task under the cursor. */
  datatype Attempt =
    | Busy(handle: Handle)
    | Ran(handle: Handle, waitOnce: bool, productive: bool, wokeOthers: bool)

  datatype PoolOutcome =
    | Stopped
    | Stepped(next: Worker, attempt: Attempt)

  /** A worker's cursor points into its snapshot or at its end. */
  predicate WellFormed(w: Worker)
  {
    w.cursor <= |w.snapshot|
  }

  /** The worker after the configuration check at the top of the loop. */
  function Refresh(w: Worker, signature: nat, tasks: seq<Handle>): (r: Worker)
    ensures r.localSignature == signature
    ensures w.localSignature != signature ==> r == Worker(signature, tasks, |tasks|, 0)
    ensures w.localSignature == signature ==> r == w
  {
    if signature != w.localSignature then Worker(signature, tasks, |tasks|, 0) else w
  }

  /**
   * One iteration of `poolProcessLoop` for the thread numbered `index`:
   * refresh on a signature change, stop when the index is out of range,
   * wrap the cursor, then either run the task (when its flag was
   * acquired) or count a failed acquire, and advance the cursor.
   */
  function PoolStep(w: Worker, index: nat, signature: nat, tasks: seq<Handle>,
                    waitModeEnabled: bool, acquired: bool, productive: bool): (r: PoolOutcome)
    requires WellFormed(w)
    ensures var s := Refresh(w, signature, tasks);
      && (r.Stopped? <==> index >= |s.snapshot|)
      && (r.Stepped? ==>
            && r.next.localSignature == signature
            && r.next.snapshot == s.snapshot
            && WellFormed(r.next)
            && r.next.cursor == (if s.cursor == |s.snapshot| then 0 else s.cursor) + 1
            && r.attempt.handle == s.snapshot[r.next.cursor - 1]
            && (r.attempt.Ran? <==> acquired))
  {
    var s := Refresh(w, signature, tasks);
    if index >= |s.snapshot| then Stopped
    else
      var at := if s.cursor == |s.snapshot| then 0 else s.cursor;
      var h := s.snapshot[at];
      if acquired then
        var waitOnce := waitModeEnabled && s.failAcquireCount >= |s.snapshot|;
        var fail := if productive then 0 else s.failAcquireCount + 1;
        var fail' := if waitOnce then 0 else fail;
        Stepped(Worker(s.localSignature, s.snapshot, at + 1, fail'),
                Ran(h, waitOnce, productive, productive && waitModeEnabled))
      else
        Stepped(Worker(s.localSignature, s.snapshot, at + 1, s.failAcquireCount + 1), Busy(h))
  }

  /**
   * The fail-count rules of a step: a task runs with `waitOnce` exactly
   * when wait mode is on and the count has reached the snapshot size; a
   * productive run or a waiting attempt resets the count, an
   * unproductive one or a failed acquire adds one.
   */
  lemma PoolStepFailCount(w: Worker, index: nat, signature: nat, tasks: seq<Handle>,
                          waitModeEnabled: bool, acquired: bool, productive: bool)
    requires WellFormed(w)
    requires PoolStep(w, index, signature, tasks, waitModeEnabled, acquired, productive).Stepped?
    ensures var s := Refresh(w, signature, tasks);
      var r := PoolStep(w, index, signature, tasks, waitModeEnabled, acquired, productive);
      && (r.attempt.Ran? ==>
            && (r.attempt.waitOnce <==> waitModeEnabled && s.failAcquireCount >= |s.snapshot|)
            && r.attempt.productive == productive
            && (r.attempt.wokeOthers <==> productive && waitModeEnabled)
            && r.next.failAcquireCount
                 == (if r.attempt.waitOnce || productive then 0 else s.failAcquireCount + 1))
      && (r.attempt.Busy? ==> r.next.failAcquireCount == s.failAcquireCount + 1)
  {
  }

  /** A signature change resets the snapshot, the cursor and the fail count before the step. */
  lemma PoolStepRefreshes(w: Worker, index: nat, signature: nat, tasks: seq<Handle>,
                          waitModeEnabled: bool, acquired: bool, productive: bool)
    requires WellFormed(w) && w.localSignature != signature && index < |tasks|
    ensures var r := PoolStep(w, index, signature, tasks, waitModeEnabled, acquired, productive);
      && r.Stepped?
      && r.next.snapshot == tasks && r.next.cursor == 1
      && r.attempt.handle == tasks[0]
      && r.next.failAcquireCount == (if acquired && productive then 0 else 1)
  {
  }

  /** The outcomes fed to a run of steps: whether the flag was free, and whether the task did work. */
  datatype Outcome = Outcome(acquired: bool, productive: bool)

  /** Where the next step reads the snapshot: the cursor, wrapped to the front at the end. */
  function Start(w: Worker): nat {
    if w.cursor == |w.snapshot| then 0 else w.cursor
  }

  /** The position `k` steps after `c` on a ring of `n` positions, stepping as the cursor does. */
  function Ahead(c: nat, k: nat, n: nat): (r: nat)
    requires c < n
    ensures r < n
    decreases k
  {
    if k == 0 then c else Ahead(if c + 1 == n then 0 else c + 1, k - 1, n)
  }

  /** The attempts made by a run of steps at a fixed configuration, up to the first stop. */
  function Run(w: Worker, index: nat, signature: nat, tasks: seq<Handle>, waitModeEnabled: bool,
               outcomes: seq<Outcome>): (r: seq<Attempt>)
    requires WellFormed(w)
    ensures |r| <= |outcomes|
    decreases |outcomes|
  {
    if outcomes == [] then []
    else
      match PoolStep(w, index, signature, tasks, waitModeEnabled,
                     outcomes[0].acquired, outcomes[0].productive)
      case Stopped => []
      case Stepped(next, attempt) =>
        [attempt] + Run(next, index, signature, tasks, waitModeEnabled, outcomes[1..])
  }

  /**
   * Round robin: a thread whose index is out of range makes no attempt;
   * any other makes one per outcome, visiting the snapshot from the cursor
   * onwards and wrapping at its end, and runs exactly the tasks whose flag
   * it acquired.
   */
  lemma {:induction false} RunRoundRobin(w: Worker, index: nat, signature: nat, tasks: seq<Handle>,
                                         waitModeEnabled: bool, outcomes: seq<Outcome>)
    requires WellFormed(w)
    ensures var s := Refresh(w, signature, tasks);
      var r := Run(w, index, signature, tasks, waitModeEnabled, outcomes);
      && (index >= |s.snapshot| ==> r == [])
      && (index < |s.snapshot| ==> |r| == |outcomes|)
      && forall k | 0 <= k < |r| ::
           && r[k].handle == s.snapshot[Ahead(Start(s), k, |s.snapshot|)]
           && (r[k].Ran? <==> outcomes[k].acquired)
    decreases |outcomes|
  {
    var s := Refresh(w, signature, tasks);
    var r := Run(w, index, signature, tasks, waitModeEnabled, outcomes);
    if outcomes != [] {
      var o := PoolStep(w, index, signature, tasks, waitModeEnabled, outcomes[0].acquired, outcomes[0].productive);
      if o.Stepped? {
        var next := o.next;
        var n := |s.snapshot|;
        assert Refresh(next, signature, tasks) == next;
        assert Start(next) == (if Start(s) + 1 == n then 0 else Start(s) + 1);
        RunRoundRobin(next, index, signature, tasks, waitModeEnabled, outcomes[1..]);
        var rest := Run(next, index, signature, tasks, waitModeEnabled, outcomes[1..]);
        assert r == [o.attempt] + rest;
        forall k | 0 <= k < |r|
          ensures r[k].handle == s.snapshot[Ahead(Start(s), k, n)]
          ensures r[k].Ran? <==> outcomes[k].acquired
        {
          if k > 0 {
            assert r[k] == rest[k - 1] && outcomes[k] == outcomes[1..][k - 1];
          }
        }
      }
    }
  }

  /**
   * The fairness rule: once the configuration is stable and the fail
   * count is `fail`, a worker does not wait in a task for the next
   * `|snapshot| - fail` attempts — it first tries every task in turn.
   */
  lemma {:induction false} NoWaitBeforeFullSweep(w: Worker, index: nat, tasks: seq<Handle>,
                                                 waitModeEnabled: bool, outcomes: seq<Outcome>)
    requires WellFormed(w)
    requires w.failAcquireCount + |outcomes| <= |w.snapshot|
    ensures forall a :: a in Run(w, index, w.localSignature, tasks, waitModeEnabled, outcomes) ==>
      !(a.Ran? && a.waitOnce)
    decreases |outcomes|
  {
    var run := Run(w, index, w.localSignature, tasks, waitModeEnabled, outcomes);
    if outcomes != [] {
      var r := PoolStep(w, index, w.localSignature, tasks, waitModeEnabled,
                        outcomes[0].acquired, outcomes[0].productive);
      if r.Stepped? {
        NoWaitBeforeFullSweep(r.next, index, tasks, waitModeEnabled, outcomes[1..]);
        assert run == [r.attempt] + Run(r.next, index, w.localSignature, tasks, waitModeEnabled, outcomes[1..]);
      }
    }
  }

  /** The local state of a single-task thread: the signature seen and whether its task was found. */
  datatype SingleWorker = SingleWorker(localSignature: nat, found: bool)

  /** A dedicated thread before its first step. */
  const INITIAL_SINGLE: SingleWorker := SingleWorker(0, false)

  datatype SingleOutcome =
    | SingleStopped
    | SingleRan(next: SingleWorker, waitOnce: bool)

  /**
   * One iteration of `singleProcessLoop`: refresh on a signature change
   * by looking the own handle up, stop when it is gone, otherwise run the
   * task, waiting in it when wait mode is on.
   */
  function SingleStep(w: SingleWorker, handle: Handle, signature: nat, tasks: set<Handle>,
                      waitModeEnabled: bool): (r: SingleOutcome)
    ensures w.localSignature != signature ==> (r.SingleStopped? <==> handle !in tasks)
    ensures w.localSignature == signature ==> (r.SingleStopped? <==> !w.found)
    ensures r.SingleRan? ==> r.next.localSignature == signature && r.next.found
    ensures r.SingleRan? ==> r.waitOnce == waitModeEnabled
  {
    var s := if signature != w.localSignature then SingleWorker(signature, handle in tasks) else w;
    if !s.found then SingleStopped else SingleRan(s, waitModeEnabled)
  }
}
