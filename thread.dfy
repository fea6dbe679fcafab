/**
 The picoThread thread handle and the static state beneath it: the task queue
 shared with the second core, the worker-started flag and the worker loop
 (one step at a time), plus the handle's spawn / join / detach / swap
 lifecycle.
 */
module PicoThread {
  import opened ThreadIds

  datatype Option<T> = None | Some(value: T)

  /**
   The zero-argument task `std::bind(f, args...)` produces. It is opaque: the
   model never runs it, it only records which task the worker invoked.
   */
  datatype Callable = Callable(tag: nat)

  /** The `std::errc` codes `join` and `detach` throw as `std::system_error`. */
  datatype Errc = InvalidArgument | ResourceDeadlockWouldOccur

  /** How `join` and `detach` return: normally, or by throwing a system error. */
  datatype Outcome = Ok | SystemError(code: Errc)

  /** What destroying a handle does: nothing, or `std::terminate()`. */
  datatype Teardown = Destroyed | Terminate

  /** `thread::hardware_concurrency()`: the board has exactly two cores. */
  function HardwareConcurrency(): (r: nat)
    ensures r == 2
  {
    2
  }

  /** The `bool` a handle and its queue record co-own through a `shared_ptr`. */
  class Flag {
    var done: bool

    constructor ()
      ensures !done
    {
      done := false;
    }
  }

  /** `_callQueue_t`: the id of the spawning handle, its task and its flag. */
  datatype CallRecord = CallRecord(threadId: Id, f: Callable, finished: Flag)

  /**
   The static members of `thread`: the id counter `_nextId`, `baseThreadId`,
   `_core1Started` and the FIFO `_callQueue`.

   Ghost history: `issued` lists every id ever drawn from the counter, in
   order; `enqueued` lists the flag of every record ever pushed, in push
   order; and `served` counts the records the worker has completed. The
   invariant says that the i-th id drawn is i modulo 2^32 (so the counter is
   the number of ids drawn, modulo 2^32), that the queue holds exactly the
   records not yet served, that a flag is true exactly when its record has
   been served (so flags turn true strictly in push order), and that nothing
   is queued before the worker has been started.
   */
  class Runtime {
    var nextId: Uint32
    var baseThreadId: Id
    var core1Started: bool
    var callQueue: seq<CallRecord>
    ghost var issued: seq<Id>
    ghost var enqueued: seq<Flag>
    ghost var served: nat

    ghost predicate Valid()
      reads this, enqueued
    {
      && nextId as int == |issued| % U32
      && (forall i :: 0 <= i < |issued| ==> issued[i].value as int == i % U32)
      && served + |callQueue| == |enqueued|
      && (forall k :: 0 <= k < |callQueue| ==> callQueue[k].finished == enqueued[served + k])
      && (forall i, j :: 0 <= i < j < |enqueued| ==> enqueued[i] != enqueued[j])
      && (forall i :: 0 <= i < |enqueued| ==> (enqueued[i].done <==> i < served))
      && (|enqueued| > 0 ==> core1Started)
    }

    /**
     Static initialisation: `_nextId` starts at 0, the worker is not started,
     the queue is empty, and `baseThreadId` draws the first id.
     */
    constructor ()
      ensures Valid()
      ensures baseThreadId == Id(0) && nextId == 1
      ensures !core1Started && callQueue == []
      ensures issued == [Id(0)] && enqueued == [] && served == 0
    {
      nextId := 0;
      issued := [];
      core1Started := false;
      callQueue := [];
      enqueued := [];
      served := 0;
      new;
      baseThreadId := NewId();
    }

    /** `id()`: the counter's current value becomes the id; the counter advances. */
    method NewId() returns (id: Id)
      requires Valid()
      modifies this`nextId, this`issued
      ensures Valid()
      ensures id == Id(old(nextId))
      ensures nextId == NextCounter(old(nextId))
      ensures issued == old(issued) + [id]
    {
      id := Id(nextId);
      nextId := NextCounter(nextId);
      issued := issued + [id];
    }

    /**
     Until the counter wraps, the ids drawn so far are strictly increasing
     and all below the counter, so every id is distinct from all earlier ones.
     */
    lemma IssuedIdsIncreasing()
      requires Valid() && |issued| < U32
      ensures forall i, j :: 0 <= i < j < |issued| ==> issued[i].Lt(issued[j])
      ensures forall i :: 0 <= i < |issued| ==> issued[i].value < nextId
    {
    }

    /**
     The start-up branch of the constructor: launch the worker on the second
     core the first time only. Once set, the flag stays set.
     */
    method StartWorker()
      requires Valid()
      modifies this`core1Started
      ensures Valid()
      ensures core1Started
    {
      if !core1Started {
        core1Started := true;
      }
    }

    /**
     `_callQueue.push(_callQueue_t(threadId, f, finished))`. The record's
     member `threadId` is default-constructed before the constructor body
     assigns it, so building the record draws one more counter value.
     */
    method Push(threadId: Id, f: Callable, finished: Flag)
      requires Valid() && core1Started
      requires !finished.done && finished !in enqueued
      modifies this`nextId, this`issued, this`callQueue, this`enqueued
      ensures Valid()
      ensures nextId == NextCounter(old(nextId))
      ensures issued == old(issued) + [Id(old(nextId))]
      ensures callQueue == old(callQueue) + [CallRecord(threadId, f, finished)]
      ensures enqueued == old(enqueued) + [finished]
    {
      var defaultId := NewId();
      callQueue := callQueue + [CallRecord(threadId, f, finished)];
      enqueued := enqueued + [finished];
    }

    /**
     One iteration of `_core1_entry`. On an empty queue the worker only spins.
     Otherwise it invokes the front task, sets that task's flag and pops
     exactly that record; the remaining records keep their order and flags.
     */
    method WorkerStep() returns (ran: Option<Callable>)
      requires Valid()
      modifies this`callQueue, this`served, if callQueue == [] then {} else {callQueue[0].finished}
      ensures Valid()
      ensures old(callQueue) == [] ==> ran == None && callQueue == [] && served == old(served)
      ensures old(callQueue) != [] ==>
                && ran == Some(old(callQueue)[0].f)
                && old(callQueue)[0].finished.done
                && callQueue == old(callQueue)[1..]
                && served == old(served) + 1
    {
      if callQueue == [] {
        ran := None;
      } else {
        var toDo := callQueue[0];
        ran := Some(toDo.f);
        toDo.finished.done := true;
        callQueue := callQueue[1..];
        served := served + 1;
      }
    }

    /** A flag that was pushed and is still false belongs to a record in the queue. */
    lemma PendingIsQueued(f: Flag)
      requires Valid() && f in enqueued && !f.done
      ensures exists k :: 0 <= k < |callQueue| && callQueue[k].finished == f
    {
      var i :| 0 <= i < |enqueued| && enqueued[i] == f;
      assert callQueue[i - served].finished == f;
    }

    /** A flag becomes true only after every flag pushed before it is true. */
    lemma CompletionFollowsPushOrder(i: nat, j: nat)
      requires Valid() && i < j < |enqueued| && enqueued[j].done
      ensures enqueued[i].done
    {
    }
  }

  /** A `thread` handle: its id, its shared completion flag and `_joinable`. */
  class Thread {
    var id: Id
    var finished: Flag
    var joinable: bool

    /** The handle's flag is one the runtime pushed. */
    ghost predicate Tracked(rt: Runtime)
      reads this, rt
    {
      finished in rt.enqueued
    }

    /**
     Spawn. The member initialisers draw the handle's id and allocate a false
     flag; the body starts the worker if needed, sets `_joinable` and pushes
     one record carrying the handle's id and flag. The counter advances by two.
     Only `rt` and the new flag change: earlier records and their flags do not.
     */
    constructor (rt: Runtime, f: Callable)
      requires rt.Valid()
      modifies rt
      ensures rt.Valid() && Tracked(rt)
      ensures joinable && id == Id(old(rt.nextId))
      ensures fresh(finished) && !finished.done
      ensures rt.nextId == NextCounter(NextCounter(old(rt.nextId)))
      ensures rt.issued == old(rt.issued) + [id, Id(NextCounter(old(rt.nextId)))]
      ensures rt.core1Started
      ensures rt.callQueue == old(rt.callQueue) + [CallRecord(id, f, finished)]
      ensures rt.enqueued == old(rt.enqueued) + [finished] && rt.served == old(rt.served)
      ensures rt.baseThreadId == old(rt.baseThreadId)
    {
      var myId := rt.NewId();
      id := myId;
      finished := new Flag();
      joinable := false;
      new;
      rt.StartWorker();
      joinable := true;
      rt.Push(id, f, finished);
    }

    /** `~thread()`: destroying a still-joinable handle terminates the process. */
    function Destroy(): (r: Teardown)
      reads this
      ensures r == Terminate <==> joinable
    {
      if joinable then Terminate else Destroyed
    }

    /** `joinable()`: reads the state, changes nothing. */
    function Joinable(): (r: bool)
      reads this
      ensures r <==> Destroy() == Terminate
    {
      joinable
    }

    /** `get_id()`: reads the id, changes nothing. */
    function GetId(): (r: Id)
      reads this
      ensures r.Eq(id)
    {
      id
    }

    /**
     `join()`. A non-joinable handle fails with `invalid_argument` before the
     deadlock signal (`multicore_fifo_rvalid()`) is looked at; a raised signal
     fails with `resource_deadlock_would_occur`. Either failure changes
     nothing. Otherwise the caller spins until the flag is true, during which
     the worker drains the queue from the front, and then `_joinable` is
     cleared.
     */
    method Join(rt: Runtime, deadlockSignal: bool) returns (r: Outcome)
      requires rt.Valid() && Tracked(rt)
      modifies this`joinable, rt`callQueue, rt`served, rt.enqueued
      ensures rt.Valid() && Tracked(rt)
      ensures rt.enqueued == old(rt.enqueued)
      ensures !old(joinable) ==> r == SystemError(InvalidArgument)
      ensures old(joinable) && deadlockSignal ==> r == SystemError(ResourceDeadlockWouldOccur)
      ensures old(joinable) && !deadlockSignal ==> r == Ok
      ensures r != Ok ==> unchanged(this, rt) && unchanged(rt.enqueued)
      ensures r == Ok ==> !joinable && finished.done && Destroy() == Destroyed
      ensures old(rt.served) <= rt.served
      ensures rt.callQueue == old(rt.callQueue)[rt.served - old(rt.served)..]
    {
      if !joinable {
        return SystemError(InvalidArgument);
      } else if deadlockSignal {
        return SystemError(ResourceDeadlockWouldOccur);
      }
      while !finished.done
        invariant rt.Valid() && Tracked(rt)
        invariant rt.enqueued == old(rt.enqueued)
        invariant old(rt.served) <= rt.served
        invariant rt.callQueue == old(rt.callQueue)[rt.served - old(rt.served)..]
        decreases |rt.callQueue|
      {
        rt.PendingIsQueued(finished);
        var ran := rt.WorkerStep();
      }
      joinable := false;
      r := Ok;
    }

    /**
     `detach()`: fails with `invalid_argument` on a non-joinable handle;
     otherwise clears `_joinable`. It touches neither the flag, nor the
     queue, nor the counter.
     */
    method Detach() returns (r: Outcome)
      modifies this`joinable
      ensures r == (if old(joinable) then Ok else SystemError(InvalidArgument))
      ensures !joinable
      ensures Destroy() == Destroyed
    {
      if !joinable {
        return SystemError(InvalidArgument);
      }
      joinable := false;
      r := Ok;
    }

    /**
     `swap(other)`: exchanges the id, the flag reference and `_joinable` of the
     two handles and nothing else; swapping a handle with itself changes
     nothing.
     */
    method Swap(other: Thread)
      modifies this, other
      ensures id == old(other.id) && other.id == old(id)
      ensures finished == old(other.finished) && other.finished == old(finished)
      ensures joinable == old(other.joinable) && other.joinable == old(joinable)
    {
      var tempId := id;
      id := other.id;
      other.id := tempId;

      var tempFinished := finished;
      finished := other.finished;
      other.finished := tempFinished;

      var tempJoinable := joinable;
      joinable := other.joinable;
      other.joinable := tempJoinable;
    }
  }

  /**
   Two spawns in a row: while the counter has not wrapped, the later handle's
   id is above the earlier one's, two counter values further on.
   */
  method SpawnTwice(rt: Runtime, f: Callable, g: Callable) returns (a: Thread, b: Thread)
    requires rt.Valid() && |rt.issued| + 4 < U32
    modifies rt
    ensures rt.Valid() && a.Tracked(rt) && b.Tracked(rt)
    ensures a.id.Lt(b.id) && b.id.value as int == a.id.value as int + 2
    ensures rt.callQueue == old(rt.callQueue) + [CallRecord(a.id, f, a.finished), CallRecord(b.id, g, b.finished)]
  {
    a := new Thread(rt, f);
    b := new Thread(rt, g);
    rt.IssuedIdsIncreasing();
    assert a.id == rt.issued[|old(rt.issued)|];
    assert b.id == rt.issued[|old(rt.issued)| + 2];
  }

  /**
   Spawns one handle per task, in order. The handles' ids are exactly
   `SpawnIds` from the counter's starting value: (c + 2k) modulo 2^32 for the
   k-th, with no bound on the counter; every handle is joinable and tracked.
   */
  method SpawnAll(rt: Runtime, fs: seq<Callable>) returns (ts: seq<Thread>)
    requires rt.Valid()
    modifies rt
    ensures rt.Valid() && |ts| == |fs|
    ensures forall k :: 0 <= k < |ts| ==> ts[k].joinable && ts[k].Tracked(rt)
    ensures forall k :: 0 <= k < |ts| ==> ts[k].id == SpawnIds(old(rt.nextId), |fs|)[k]
  {
    ghost var c := rt.nextId;
    SpawnIdsModulo(c, |fs|);
    ts := [];
    var i := 0;
    while i < |fs|
      invariant 0 <= i <= |fs| && |ts| == i
      invariant rt.Valid()
      invariant rt.nextId as int == (c as int + 2 * i) % U32
      invariant forall k :: 0 <= k < i ==> ts[k].joinable && ts[k].Tracked(rt)
      invariant forall k :: 0 <= k < i ==> ts[k].id.value as int == (c as int + 2 * k) % U32
    {
      var t := new Thread(rt, fs[i]);
      ModuloStep(c as int + 2 * i);
      ts := ts + [t];
      i := i + 1;
    }
    forall k | 0 <= k < |ts|
      ensures ts[k].id == SpawnIds(c, |fs|)[k]
    {
      assert ts[k].id.value == SpawnIds(c, |fs|)[k].value;
    }
  }

  /** Two counter steps from x modulo 2^32 land on x + 2 modulo 2^32. */
  lemma ModuloStep(x: int)
    requires 0 <= x
    ensures NextCounter(NextCounter((x % U32) as Uint32)) as int == (x + 2) % U32
  {
  }

  /** Swapping two handles twice restores both, and keeps both tracked. */
  method SwapTwiceRestores(a: Thread, b: Thread, rt: Runtime)
    requires a.Tracked(rt) && b.Tracked(rt)
    modifies a, b
    ensures a.id == old(a.id) && a.finished == old(a.finished) && a.joinable == old(a.joinable)
    ensures b.id == old(b.id) && b.finished == old(b.finished) && b.joinable == old(b.joinable)
    ensures a.Tracked(rt) && b.Tracked(rt)
  {
    a.Swap(b);
    assert a.Tracked(rt) && b.Tracked(rt);
    a.Swap(b);
  }
}
