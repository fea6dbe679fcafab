# picoThread in Dafny

A model of picoThread's `thread` class. The library is a `std::thread`-like
handle for a two-core microcontroller. Spawning a handle starts a worker loop
on the second core (once per process) and appends a task record to a static
FIFO queue. The worker pops records in order, runs each task and sets that
task's completion flag. `join` spins on that flag. `detach` gives up interest
in the task.

Two modules:

- `ThreadIds` (`ids.dfy`) covers `thread::id`:
  - the `uint32_t` counter `_nextId` and its wrap-around;
  - the six comparison operators;
  - the arithmetic of the ids that successive spawns hand out.
- `PicoThread` (`thread.dfy`) covers the rest:
  - `Runtime` holds the static state: the counter, `baseThreadId`, `_core1Started` and `_callQueue`;
  - `Flag` is the `bool` that a handle and its queue record co-own through a `shared_ptr`;
  - `CallRecord` is `_callQueue_t`;
  - `Thread` is the handle, with its spawn, join, detach and swap lifecycle.

`Runtime` carries a ghost history:
- `issued` lists every id ever drawn from the counter;
- `enqueued` lists every flag ever pushed;
- `served` counts the records the worker has completed.

Its invariant `Valid()` states five things:
- the i-th id drawn has value i modulo 2^32, and the counter equals the number of ids drawn, modulo 2^32;
- the queue holds exactly the records that are not yet served, in push order;
- all pushed flags are distinct;
- a flag is true exactly when its record has been served;
- nothing is queued until the worker has been started.

So flags become true strictly in FIFO order. Until the counter wraps, every id is larger than all ids drawn before it.

Each spawn uses two counter values. The handle's `_id` member initialiser
draws one. Building the `_callQueue_t` draws a second one, because its
`threadId` member is default-constructed before the constructor body assigns
it. Handle ids therefore go up by two per spawn. Static initialisation gives
the first id, 0, to `baseThreadId`.

`join` spins until the worker has set the handle's flag. The model treats the
two cores as a sequential interleaving. While `join` spins, the worker takes
steps: each iteration of `Thread.Join`'s loop runs one `Runtime.WorkerStep`.
A worker step always returns, because the model treats tasks as returning.
Under that assumption the loop ends: the handle's flag belongs to a record
that is still queued, so the worker reaches it after finitely many steps.

The code's deadlock check reads the hardware FIFO (`multicore_fifo_rvalid()`).
It does not compare the calling core with the worker core. The model follows
the code and takes that reading as the `deadlockSignal` parameter.

The counter wraps after 2^32 ids, so "ids are never reused" holds only below
that bound. `Runtime.IssuedIdsIncreasing` and `SpawnIdsIncreasing` state the
bound as their precondition. `SpawnIdsModulo` gives the ids of successive
spawns with no bound. `SpawnIdsRepeatAfterWrap` shows that the spawn 2^31
places after a handle with id c gets id c again. `SpawnAll` proves that a
run of constructor calls hands out exactly the ids `SpawnIds` describes.

## Model

| member | source | states |
|---|---|---|
| `ThreadIds.NextCounter` | thread.cpp:20-26 | `_nextId++` on a `uint32_t`: below the maximum the counter goes up by exactly one; at the maximum it wraps to 0; in general it is one more modulo 2^32 |
| `ThreadIds.Id.Eq` | thread.cpp:29-32 | `==` holds exactly when the two ids are the same identity |
| `ThreadIds.Id.Ne` | thread.cpp:33-36 | `!=` is the negation of `==` |
| `ThreadIds.Id.Gt` | thread.cpp:41-44 | `a > b` holds exactly when `b < a` |
| `ThreadIds.Id.Le` | thread.cpp:45-48 | `<=` holds exactly when `<` or `==` holds |
| `ThreadIds.Id.Ge` | thread.cpp:49-52 | `a >= b` holds exactly when `b <= a`, that is, when `>` or `==` holds |
| `ThreadIds.Id.Lt` | thread.cpp:37-40 | `<` orders ids by their counter values, and no id is below an equal one; `IdOrderIsTotal` proves it is a strict total order |
| `ThreadIds.IdOrderIsTotal` | thread.cpp:37-40 | `<` is irreflexive, transitive and asymmetric, and any two ids are related by `<`, `==` or `>` |
| `ThreadIds.SpawnIdsIncreasing` | thread.cpp:64-114 | the k-th entry of `SpawnIds(c, n)` (the ids of n successive spawns from counter c, as `PicoThread.SpawnAll` proves) is c + 2k when the counter does not wrap: the ids are strictly increasing and pairwise distinct but not consecutive |
| `ThreadIds.SpawnIdsModulo` | thread.cpp:64-114 | with no bound on the counter, the k-th entry of `SpawnIds(c, n)` is (c + 2k) modulo 2^32 |
| `ThreadIds.SpawnIdsRepeatAfterWrap` | thread.cpp:20-26 | ids are reused once the counter wraps: in `SpawnIds`, the spawn 2^31 places after a handle with id c gets id c again |
| `PicoThread.HardwareConcurrency` | thread.cpp:130-133 | always 2 |
| `PicoThread.Flag.constructor` | thread.cpp:96 | a new completion flag is false |
| `PicoThread.Runtime.constructor` | thread.cpp:182-186 | static initialisation: `baseThreadId` is id 0 and is the only id drawn, the counter is then 1, the worker is not started and the queue is empty; the invariant holds |
| `PicoThread.Runtime.NewId` | thread.cpp:24-27 | `id()` returns the counter's current value and advances the counter (with wrap-around); the id is appended to the history of drawn ids and nothing else changes; the invariant is kept |
| `PicoThread.Runtime.IssuedIdsIncreasing` | thread.cpp:24-27 | until the counter wraps, every id drawn is strictly greater than all earlier ones and below the counter, so ids are pairwise distinct |
| `PicoThread.Runtime.StartWorker` | thread.cpp:105-111 | afterwards the worker is started; only the started flag may change, and it only goes from false to true |
| `PicoThread.Runtime.Push` | thread.cpp:64-75 | building the record draws one counter value (the default-constructed `threadId`), which joins the history of drawn ids; exactly one record with the given id, task and flag is appended at the back, and earlier records stay as they are |
| `PicoThread.Runtime.WorkerStep` | thread.cpp:80-92 | on an empty queue nothing changes; otherwise the front task is the one invoked, its flag becomes true, exactly that record is removed, and the rest keep their order and their flags |
| `PicoThread.Runtime.PendingIsQueued` | thread.cpp:84-91 | a pushed flag that is still false belongs to a record that is still in the queue, so the worker will reach it |
| `PicoThread.Runtime.CompletionFollowsPushOrder` | thread.cpp:84-91 | a flag is true only if every flag pushed before it is already true |
| `PicoThread.Thread.constructor` | thread.cpp:95-115 | spawn: the handle gets the counter's current value as its id, a fresh false flag, and `joinable` true; the worker is started; exactly one record (that id, the task, that flag) is appended; the counter advances by two, drawing the handle's id and then one discarded id; nothing else in the runtime changes |
| `PicoThread.SpawnAll` | thread.cpp:95-115 | spawning one handle per task in a loop, with no bound on the counter: the k-th handle's id is the k-th entry of `SpawnIds` from the starting counter value, and every handle is joinable and tracked; this ties the `SpawnIds` lemmas to the constructor |
| `PicoThread.SpawnTwice` | thread.cpp:95-115 | two spawns in a row, with the counter not wrapping: the second handle's id is the first's plus two, hence greater, and their records sit at the back of the queue in spawn order |
| `PicoThread.Thread.Destroy` | thread.cpp:117-123 | destroying a handle terminates the process exactly when it is still joinable |
| `PicoThread.Thread.Joinable` | thread.cpp:125-128 | `joinable()` is true exactly when destroying the handle would be fatal; it reads only the handle |
| `PicoThread.Thread.GetId` | thread.cpp:161-164 | `get_id()` returns an id equal to the handle's own; it reads only the handle |
| `PicoThread.Thread.Join` | thread.cpp:135-150 | a non-joinable handle fails with `invalid_argument`, even when the deadlock signal is raised; otherwise a raised signal fails with `resource_deadlock_would_occur`; neither failure changes anything; on success the handle's flag is true, `joinable` is false, and the queue has lost only a prefix of its records to the worker |
| `PicoThread.Thread.Detach` | thread.cpp:152-159 | a non-joinable handle fails with `invalid_argument`; otherwise the call succeeds. Either way `joinable` ends false. Only `joinable` can change: not the flag, the queue or the counter |
| `PicoThread.Thread.Swap` | thread.cpp:166-179 | exchanges exactly the id, the flag reference and `joinable` of the two handles; no other object changes |
| `PicoThread.SwapTwiceRestores` | thread.cpp:166-179 | swapping two handles twice restores both, and both handles still refer to pushed flags |

## Left out

- Thread.Join: tasks are assumed to return. In the source, a task that never returns keeps the worker inside `std::invoke`, so `join` on its handle (or on any later handle) spins forever. The model's `Join` always returns once the handle is joinable and the deadlock signal is clear.

- Starting the second core: `multicore_launch_core1` and the start-up `multicore_fifo_push_blocking` are Pico SDK calls. They appear only as the `core1Started` transition.
- Spin-waits: `tight_loop_contents()` and the worker's endless outer loop are not modelled. The worker is a single step. An empty-queue step is one idle spin.
- Deadlock detection: `multicore_fifo_rvalid()` is a hardware query. It is the `deadlockSignal` parameter of `Join`.
- Tasks: `std::bind` argument binding, `std::ref` and the execution of the task body are left out. A task is an opaque `Callable` token, and `WorkerStep` only reports which task it invoked.
- Fatal errors raised by a task on the worker core are left out, because task bodies are not modelled.
- Compile-time checks: the `static_assert` on invocability is a compile-time check only.
- Output: the `std::cout` output and the `operator<<` rendering of an id are I/O.
- Hashing: the `std::hash` specialisation depends on the library's string hash.
- Demo code: `f`, `f1`, `createThreads` and `main` are demo and board bring-up code.
- Memory model: there is no memory-model or data-race reasoning. The queue and flags are shared across cores without synchronisation, and the model is a sequential interleaving.
- Handle ownership: the handle's `shared_ptr` and the queue record's lifetime are not modelled. Reference counting becomes plain object references.
