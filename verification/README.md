# h2o file observer and HTTP/2 status rollup, in Dafny

This project models two small pieces of the h2o HTTP server.

**The file observer** (`lib/common/file_observer.c`). A background poller
watches a set of files. Each observer records a file name and the file's last
seen modification time, `last_mtime`. Once per cycle the poller copies the
observer vector and checks every observer in turn:

- a failed `stat` resets `last_mtime` to the sentinel 0;
- an unchanged time is skipped;
- a changed time leads to a read of the file;
- a failed read also resets `last_mtime` to 0;
- a successful read commits the new time and broadcasts the contents.

The broadcast puts the contents in one shared, reference-counted buffer. The
poller sends one message per registered receiver (one receiver per worker
thread), and each message holds a reference to that buffer. Each receiver
drains its own FIFO list: it runs the observer's callback with the bytes and
then drops its reference. The buffer is disposed when the last reference goes.
Creating the first observer takes the `once` latch and starts the poller
thread.

**The HTTP/2 status rollup** (`lib/handler/status/http2.c`). It keeps two
64-bit counters, total pushes and total HPACK evictions. `init` zeroes them.
`per_thread` adds one worker's counts, with unsigned wrap-around. `final` uses
`snprintf` to render a fixed JSON fragment into a 128-byte buffer.

Modules:

- `SharedMem` (shared_mem.dfy): the shared allocation's reference count and
  dispose-on-zero. It covers `h2o_mem_alloc_shared`, `h2o_mem_addref_shared`
  and `h2o_mem_release_shared`, whose source is not part of this model. The
  model keeps only the behaviour the observer relies on.
- `FileObserver` (file_observer.dfy):
  - the registry state;
  - `h2o_file_observer_create` and `h2o_file_observer_context_init`;
  - the per-observer decision, the fan-out, one poll cycle and delivery;
  - the receiver drain;
  - the two invariants every step keeps: `Balanced` (refcount equals queued
    references) and `InOrder` (each list holds buffers in allocation order).
- `FileObserverLemmas` (file_observer_lemmas.dfy): the per-observer rules of
  a cycle, fault isolation, self-healing, the once latch over any sequence
  of registrations, and append-only growth.
- `Decimal` (decimal.dfy): `PRIu64` rendering, its parser, and digit-count
  bounds.
- `Http2Status` (http2_status.dfy): init, per-thread accumulation, the
  rollup's modular-sum and order-independence properties, `snprintf`, and
  `final` with its length bound and round trip.

How the model abstracts the source:

- `stat` and `h2o_file_read` are inputs. Each observer gets a `Probe`: a stat
  outcome `StatFail | StatOk(mtime)` and a read outcome
  `ReadFail | ReadOk(bytes)`. The read outcome matters only when the decision
  reads the file (`NoReadWithoutChange`).
- The poller's copy of the observer vector is a prefix of `observers`,
  because the vector is append-only. A cycle over `probes` polls the first
  `|probes|` observers. Observers created after the copy keep their state
  until the next cycle.
- `h2o_multithread_send_message` appends the message to the addressed
  receiver's list (`Deliver`).
- A buffer's reference count and `freed` flag are plain fields of a heap of
  buffers indexed by allocation number. `dispose_fo_message` running is
  modelled as `freed` becoming true.
- Every critical section is one atomic step, and so is a whole poll cycle
  (see "Left out").

## Model

| member | source | states |
|---|---|---|
| SharedMem.Alloc | lib/common/file_observer.c:96-97 | a new buffer is live with exactly one reference (the poller's) and holds the bytes read; earlier buffers are untouched |
| SharedMem.AddRef | lib/common/file_observer.c:101 | only a live buffer gains a reference; its count grows by one and nothing else changes |
| SharedMem.Release | lib/common/file_observer.c:48-52 | dropping a reference lowers the count by one; the buffer is disposed exactly when the count was one; a disposed buffer cannot be released again; freed-iff-zero is preserved |
| FileObserver.Init | lib/common/file_observer.c:44-46 | the zero-initialised statics: no observers, no receivers, no buffers, the latch untaken and no poller thread |
| FileObserver.Create | lib/common/file_observer.c:142-163 | appends exactly one observer at the end, earlier entries unchanged; `last_mtime` is the stat time on success and 0 on failure; the first creation takes the latch and starts one poller, later ones start none |
| FileObserver.ContextInit | lib/common/file_observer.c:135-140 | grows `receivers` by exactly one, appending this context's receiver with an empty list; existing receivers, observers and buffers unchanged |
| FileObserver.Decide | lib/common/file_observer.c:84-95 | reload iff stat succeeded with a time different from `last_mtime` and the read succeeded; skip iff the times are equal (including both 0); invalidate iff stat failed or the read after a change failed |
| FileObserver.FanOut | lib/common/file_observer.c:99-106 | one reference and one message per receiver, in receiver index order, all naming the same observer and buffer |
| FileObserver.PollOne | lib/common/file_observer.c:80-112 | only entry `i` changes; on a reload a new buffer holds the read bytes with one reference per receiver (disposed at once when there are no receivers) and one message per receiver is appended; otherwise no buffer and no message |
| FileObserver.PollPrefix | lib/common/file_observer.c:79-113 | after `k` entries, each polled observer holds the time its own probe dictates, the rest are untouched, exactly one buffer has been allocated per reloaded entry (none per other entry, even with no receivers), each new buffer's count equals its message count, every receiver has been sent exactly one message about each reloaded entry and none about the others, all messages about one entry share one buffer and no two entries share a buffer, and messages are in snapshot order with one receiver's buffers in allocation order |
| FileObserver.Cycle | lib/common/file_observer.c:70-113 | one pass over the snapshot: per-observer `last_mtime`; each receiver is sent exactly one message about observer `i` if it reloaded and none otherwise; messages about one observer share one buffer, and different observers never share a buffer; every message carries the bytes just read for its observer; exactly one new buffer per reloaded observer; old buffers untouched |
| FileObserver.Enqueue | lib/common/file_observer.c:105 | one send appends the message at the tail of its addressed receiver's list and leaves every other list as it was |
| FileObserver.Deliver | lib/common/file_observer.c:105 | each receiver's list grows by exactly the messages addressed to it, in sending order |
| FileObserver.RunCycle | lib/common/file_observer.c:67-113 | a cycle followed by delivery leaves the latch and the poller count alone |
| FileObserver.CycleKeepsBalance | lib/common/file_observer.c:96-107 | after any cycle, every buffer's count equals the number of queued messages holding it, and it is disposed exactly when none remain |
| FileObserver.DeliverPending | lib/common/file_observer.c:99-105 | delivery adds to each buffer's queued references exactly the number of sent messages naming it |
| FileObserver.CycleKeepsOrder | lib/common/file_observer.c:99-106 | after any cycle, each receiver's list holds buffers in allocation order, so successive versions of a file reach a worker in the order they were read |
| FileObserver.Drain | lib/common/file_observer.c:54-63 | the callback runs once per message in list order, with that message's buffer bytes; each message releases exactly one reference; the freed-iff-zero invariant is kept |
| FileObserver.Receive | lib/common/file_observer.c:54-63 | a receiver's turn empties its list, leaves the other lists alone and keeps both invariants; the callback runs once per queued message, in order, with that message's bytes; no buffer's bytes change; a buffer becomes disposed exactly when this drain held all its remaining references |
| FileObserver.ReceiveAll | lib/common/file_observer.c:48-63 | once every receiver has drained, each receiver's callback has run once per message it had queued, in order, with the bytes read for that message; no message is queued, no buffer's bytes have changed, and every buffer ever allocated has been disposed |
| FileObserverLemmas.CycleObserverRules | lib/common/file_observer.c:84-112 | per entry: stat failure gives 0 and no receiver hears of it; an equal time keeps `last_mtime` and no receiver hears of it; a read failure after a change gives 0, not the new time, and no receiver hears of it; a successful read commits the time and every receiver is sent exactly one message about it, all holding one buffer with the read bytes |
| FileObserverLemmas.ReceiverGetsEachReloadOnce | lib/common/file_observer.c:96-106 | after a cycle and its delivery, receiver `j`'s list is its old list followed by the new messages, of which exactly one is about a reloaded observer `i` (none if `i` did not reload), and that message's buffer is live and holds the bytes just read |
| FileObserverLemmas.NoReadWithoutChange | lib/common/file_observer.c:84-91 | when stat fails or the time is unchanged, the outcome does not depend on the read outcome (no read happens) and no reload occurs |
| FileObserverLemmas.CommitOnlyWithContents | lib/common/file_observer.c:91-95 | for a changed non-zero time, the new time is committed iff the contents were read and are being delivered |
| FileObserverLemmas.RetryAfterFailure | lib/common/file_observer.c:110-112 | after an invalidation, the next readable file with any non-zero time is read and delivered |
| FileObserverLemmas.EpochFileNeverReloaded | lib/common/file_observer.c:88-89 | a file whose real time is 0 matches the sentinel and is skipped |
| FileObserverLemmas.SameTimeHidesNewContents | lib/common/file_observer.c:88-89 | new contents under an unchanged time are not read |
| FileObserverLemmas.FaultIsolation | lib/common/file_observer.c:79-113 | observer `i`'s resulting `last_mtime`, the number of messages each receiver is sent about it and the bytes they carry depend only on its own probe, whatever happens to the others |
| FileObserverLemmas.OnceLatch | lib/common/file_observer.c:160-163 | over any sequence of creations and context registrations, exactly one poller thread exists once an observer has been created, and none before |
| FileObserverLemmas.AppendOnly | lib/common/file_observer.c:135-158 | registrations only append: one observer per creation, one receiver per context, earlier entries unchanged |
| FileObserverLemmas.RegisterKeepsProtocol | lib/common/file_observer.c:135-158 | registrations keep the refcount balance and the per-receiver version order |
| FileObserverLemmas.InitialState | lib/common/file_observer.c:44-46 | the empty registry satisfies all three invariants |
| Decimal.Dec | lib/handler/status/http2.c:63-64 | the `PRIu64` conversion yields a non-empty digit run without a superfluous leading zero; `ParseDecOfDec` and `DecOfParseDec` make it a bijection onto such runs |
| Decimal.ParseDecOfDec | lib/handler/status/http2.c:63-64 | parsing the `PRIu64` rendering of `n` gives back `n` |
| Decimal.DecOfParseDec | lib/handler/status/http2.c:63-64 | rendering the value of a canonical digit run gives back the run |
| Decimal.DecLengthAtMost | lib/handler/status/http2.c:63-64 | a number below 10^k renders in at most k digits |
| Http2Status.Init | lib/handler/status/http2.c:44-53 | both counters start at zero |
| Http2Status.AddU64 | lib/handler/status/http2.c:38-39 | `uint64_t` addition is the sum modulo 2^64, and the plain sum when that fits |
| Http2Status.PerThread | lib/handler/status/http2.c:32-42 | adds the worker's pushes and evictions to the matching totals, each modulo 2^64, and changes nothing else |
| Http2Status.RollupIsSumMod | lib/handler/status/http2.c:38-39 | after any sequence of `per_thread` calls, each total is the exact sum of the workers' counts modulo 2^64 |
| Http2Status.SumPermutation | lib/handler/status/http2.c:38-39 | the exact sum of a counter is the same for any ordering of the workers |
| Http2Status.RollupOrderIndependent | lib/handler/status/http2.c:32-42 | the totals do not depend on the order in which workers are visited |
| Http2Status.Snprintf | lib/handler/status/http2.c:62-65 | the stored characters are a prefix of the text: all of it when it fits, exactly size-1 characters otherwise; the returned length is the full text's length; the two agree iff the text fits |
| Http2Status.FragmentLength | lib/handler/status/http2.c:60-65 | the fragment is 60 fixed characters plus the two numbers, and at most 100 characters |
| Http2Status.FragmentLengthTight | lib/handler/status/http2.c:60-65 | the 100-character bound is reached when both totals are 2^64 - 1 |
| Http2Status.Final | lib/handler/status/http2.c:55-65 | the buffer holds exactly the fragment, untruncated, and `len` equals the number of characters stored (at most 100, below `BUFSIZE` 128) |
| Http2Status.FinalRoundTrip | lib/handler/status/http2.c:62-65 | the rendered fragment parses back to exactly the two totals |
| Http2Status.ParsedIsFinal | lib/handler/status/http2.c:62-65 | every text the fragment parser accepts is `final`'s output for the totals it recovers |

## Left out

- Thread creation (lib/common/file_observer.c:120-133): the detach state, the
  stack size and the `abort` on failure are OS threading. Starting the
  poller is counted in `pollerThreads`.
- Interleaving inside a poll cycle: the loop at
  lib/common/file_observer.c:79-113 holds no lock, sleeps before each
  observer and sends each message as it goes. The model runs the whole
  pass as one step and delivers its messages afterwards, so no receiver
  drain and no `h2o_file_observer_context_init` happens during a pass.
  The poller's own reference (taken at allocation, dropped at :107) is
  modelled, but the case it guards against, a receiver releasing its
  reference while the fan-out is still running, cannot arise.
- FileObserver.ContextInit: assumes each context registers once; nothing
  in lib/common/file_observer.c checks it. Registering the same context twice would
  append the same `h2o_multithread_receiver_t` pointer twice in the source,
  so both entries would share one list; the model gives them two
  independent lists.
- Mutexes: `observers_lock`, the `once` mutex and the status context's mutex.
  Each critical section is one atomic step. The `once` latch is a boolean
  that is taken and never released.
- Known races that the atomic-step model cannot show:
  - `h2o_file_observer_context_init` appends to `receivers` without taking
    `observers_lock`, while the poller reads `receivers.size` and its entries
    during fan-out (lib/common/file_observer.c:138-139 against :99-105).
  - `h2o_file_observer_create` sets `self->receiver` after the observer is
    published and the poller may be running (lib/common/file_observer.c:165).
    A message could reach a receiver before the callback is set.
- Timing: the `sleep(1)` before each observer's stat
  (lib/common/file_observer.c:83) runs once per observer, not once per
  cycle. The model ignores it.
- The infinite outer loop and the unreachable `h2o_fatal`
  (lib/common/file_observer.c:67, 116): the model covers one cycle, which
  can be repeated.
- Real `stat`, `h2o_file_read` and the file system are inputs.
- Allocation: `malloc`, `free`, `strdup`, `h2o_mem_calloc` and the pool
  allocator are treated as infallible. Freeing a message record after its
  callback (lib/common/file_observer.c:61) is not modelled, since no other
  reference to it exists.
- Memory held by the poller's per-cycle copy: `observers_copy` is
  reserved at lib/common/file_observer.c:74 on every pass of the outer loop
  and never freed, so each cycle leaks one allocation. The model has no
  notion of this memory.
- The callback's effect: the observer's callback is opaque. A drain records
  which observer's callback ran and with which bytes.
- The mechanics of `h2o_multithread_register_receiver` and of message
  delivery between threads: a registered receiver starts with an empty list,
  and sending appends to it.
- The `h2o_status_handler_t` registration table
  (lib/handler/status/http2.c:72-74), the mutex teardown and the `free` in
  `final`.
- The worker-side `ctx->http2.stats` counters are taken as given 64-bit
  values.
- `time_t` is an unbounded integer. The source only compares it for
  equality and stores it, so its width does not matter.

## Notes on the source

- The 0 sentinel is also a real time. A file whose modification time is the
  epoch matches `last_mtime == 0`. It is never read after a failure, or after
  a failed stat at creation (`EpochFileNeverReloaded`). The code compares
  timestamps only, so this behaviour is modelled as written.
- A change that leaves the modification time unchanged is not detected
  (`SameTimeHidesNewContents`).
- The fixed text of the status fragment is 60 characters:
  - `",\n"`: 2 characters;
  - `" \"http2-stats.pushes\": "`: 23 characters;
  - `",\n"`: 2 characters;
  - `" \"http2-stats.hpack_evictions\": "`: 32 characters;
  - `"\n"`: 1 character.

  With two 20-digit numbers the maximum is 100 characters, which fits the
  128-byte buffer together with the terminator.
