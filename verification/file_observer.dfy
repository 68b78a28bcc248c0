/** The file observer of lib/common/file_observer.c: a registry of watched
    files and of per-thread receivers, the poller's per-cycle update of each
    file's `last_mtime`, the fan-out of one shared contents buffer to every
    receiver, and each receiver's drain of its message list.

    Threads and locks are abstracted away: every critical section, and each
    whole poll cycle, is one atomic step; `stat` and `h2o_file_read` are
    inputs (a `Probe` per observer); delivery through
    `h2o_multithread_send_message` appends to the receiving thread's FIFO
    queue. */
module FileObserver {
  import opened SharedMem

  /** A `time_t` modification time as reported by stat(2). */
  type Mtime = int

  /** The value of `last_mtime` that means "nothing known": what
      `h2o_mem_calloc` leaves and what a failed stat or read writes back. */
  const Unknown: Mtime := 0

  /** Identity of the `h2o_context_t` a receiver belongs to. */
  type ContextId = nat

  datatype Observer = Observer(filename: string, lastMtime: Mtime)

  datatype StatOutcome = StatFail | StatOk(mtime: Mtime)
  datatype ReadOutcome = ReadFail | ReadOk(bytes: seq<byte>)

  /** What the file system answers for one observer during one cycle. */
  datatype Probe = Probe(stat: StatOutcome, read: ReadOutcome)

  /** A message sent to receiver number `receiver` about observer number
      `observer`, holding one reference to buffer `contents`. */
  datatype Message = Message(receiver: nat, observer: nat, contents: nat)

  /** One run of an observer's callback, with the bytes it was handed. */
  datatype Invocation = Invocation(observer: nat, content: seq<byte>)

  /** A registered `h2o_multithread_receiver_t` and its pending messages. */
  datatype Receiver = Receiver(ctx: ContextId, queue: seq<Message>)

  /** The process-wide state: the `observers` and `receivers` vectors, the
      shared buffers, the `once` latch and the number of poller threads
      started so far. */
  datatype State = State(
    observers: seq<Observer>,
    receivers: seq<Receiver>,
    heap: Heap,
    onceTaken: bool,
    pollerThreads: nat)

  function Init(): (s: State)
    ensures s.observers == [] && s.receivers == [] && s.heap == []
    ensures !s.onceTaken && s.pollerThreads == 0
  {
    State([], [], [], false, 0)
  }

  // ---------------------------------------------------------------------
  // Registration

  /** The latch and the poller agree, and the latch is taken exactly when an
      observer exists (only observer creation takes it). */
  predicate Registered(s: State)
  {
    && s.pollerThreads == (if s.onceTaken then 1 else 0)
    && (s.onceTaken <==> |s.observers| > 0)
  }

  datatype Created = Created(state: State, handle: nat)

  /** `h2o_file_observer_create`: seed `last_mtime` from one stat (left at
      zero when it fails), append the observer, and start the poller thread
      if this call is the first to take the `once` latch. */
  function Create(s: State, filename: string, st: StatOutcome): (r: Created)
    ensures r.handle == |s.observers| && |r.state.observers| == |s.observers| + 1
    ensures r.state.observers[..|s.observers|] == s.observers
    ensures r.state.observers[r.handle].filename == filename
    ensures r.state.observers[r.handle].lastMtime == (if st.StatOk? then st.mtime else Unknown)
    ensures r.state.receivers == s.receivers && r.state.heap == s.heap
    ensures r.state.onceTaken
    ensures r.state.pollerThreads == s.pollerThreads + (if s.onceTaken then 0 else 1)
    ensures Registered(s) ==> Registered(r.state)
  {
    var seeded := match st case StatOk(m) => m case StatFail => Unknown;
    var s1 := s.(observers := s.observers + [Observer(filename, seeded)]);
    var s2 := if s1.onceTaken then s1 else s1.(onceTaken := true, pollerThreads := s1.pollerThreads + 1);
    Created(s2, |s.observers|)
  }

  /** `h2o_file_observer_context_init`: register one more receiver, with an
      empty message list, after the existing ones. */
  function ContextInit(s: State, ctx: ContextId): (r: State)
    ensures |r.receivers| == |s.receivers| + 1 && r.receivers[..|s.receivers|] == s.receivers
    ensures r.receivers[|s.receivers|] == Receiver(ctx, [])
    ensures r.observers == s.observers && r.heap == s.heap
    ensures r.onceTaken == s.onceTaken && r.pollerThreads == s.pollerThreads
  {
    s.(receivers := s.receivers + [Receiver(ctx, [])])
  }

  // ---------------------------------------------------------------------
  // One observer in one cycle

  datatype Decision = Invalidate | Skip | Reload(mtime: Mtime, content: seq<byte>)

  /** The file is read only when stat succeeded and reported a time other
      than the recorded one. */
  predicate ReadAttempted(last: Mtime, st: StatOutcome)
  {
    st.StatOk? && st.mtime != last
  }

  /** The branch the poller takes for one observer. */
  function Decide(last: Mtime, st: StatOutcome, rd: ReadOutcome): (d: Decision)
    ensures d.Reload? <==> ReadAttempted(last, st) && rd.ReadOk?
    ensures d.Reload? ==> d.mtime == st.mtime && d.content == rd.bytes
    ensures d.Skip? <==> st.StatOk? && st.mtime == last
    ensures d.Invalidate? <==> st.StatFail? || (ReadAttempted(last, st) && rd.ReadFail?)
  {
    match st
    case StatFail => Invalidate
    case StatOk(m) =>
      if last == m then Skip
      else
        match rd
        case ReadFail => Invalidate
        case ReadOk(bytes) => Reload(m, bytes)
  }

  /** `last_mtime` after the decision is carried out. */
  function After(last: Mtime, d: Decision): Mtime
  {
    match d
    case Invalidate => Unknown
    case Skip => last
    case Reload(m, _) => m
  }

  // ---------------------------------------------------------------------
  // Fan-out

  datatype Fanned = Fanned(heap: Heap, msgs: seq<Message>)

  /** The loop over `receivers`: one reference and one message per receiver,
      in index order, all about observer `fo` and buffer `id`. */
  function FanOut(h: Heap, id: nat, fo: nat, n: nat): (r: Fanned)
    requires Live(h, id)
    ensures |r.heap| == |h| && Live(r.heap, id)
    ensures r.heap[id] == h[id].(refcount := h[id].refcount + n)
    ensures forall k :: 0 <= k < |h| && k != id ==> r.heap[k] == h[k]
    ensures |r.msgs| == n
    ensures forall j :: 0 <= j < n ==> r.msgs[j] == Message(j, fo, id)
    decreases n
  {
    if n == 0 then Fanned(h, [])
    else
      var f := FanOut(h, id, fo, n - 1);
      Fanned(AddRef(f.heap, id), f.msgs + [Message(n - 1, fo, id)])
  }

  // ---------------------------------------------------------------------
  // One cycle

  /** The poller's working state while it walks the snapshot. */
  datatype Poller = Poller(observers: seq<Observer>, heap: Heap, sent: seq<Message>)

  /** Number of messages in `q` that hold a reference to buffer `id`. */
  function Count(q: seq<Message>, id: nat): nat
  {
    if |q| == 0 then 0 else (if q[0].contents == id then 1 else 0) + Count(q[1..], id)
  }

  /** The body of the `for (i ...)` loop for snapshot entry `i`. */
  function PollOne(p: Poller, nrecv: nat, i: nat, pr: Probe): (r: Poller)
    requires i < |p.observers|
    ensures |r.observers| == |p.observers|
    ensures r.observers[i] == Observer(p.observers[i].filename,
                                       After(p.observers[i].lastMtime, Decide(p.observers[i].lastMtime, pr.stat, pr.read)))
    ensures forall k :: 0 <= k < |p.observers| && k != i ==> r.observers[k] == p.observers[k]
    ensures Decide(p.observers[i].lastMtime, pr.stat, pr.read).Reload? ==>
              && |r.heap| == |p.heap| + 1 && r.heap[..|p.heap|] == p.heap
              && r.heap[|p.heap|] == Buffer(pr.read.bytes, nrecv, nrecv == 0)
              && |r.sent| == |p.sent| + nrecv && r.sent[..|p.sent|] == p.sent
              && forall j :: 0 <= j < nrecv ==> r.sent[|p.sent| + j] == Message(j, i, |p.heap|)
    ensures !Decide(p.observers[i].lastMtime, pr.stat, pr.read).Reload? ==> r.heap == p.heap && r.sent == p.sent
  {
    var fo := p.observers[i];
    match Decide(fo.lastMtime, pr.stat, pr.read)
    case Invalidate => p.(observers := p.observers[i := fo.(lastMtime := Unknown)])
    case Skip => p
    case Reload(m, content) =>
      var id := |p.heap|;
      var f := FanOut(Alloc(p.heap, content), id, i, nrecv);
      Poller(p.observers[i := fo.(lastMtime := m)], Release(f.heap, id), p.sent + f.msgs)
  }

  /** What the first `k` steps of a cycle have achieved, starting from
      observers `obs0` and heap `heap0`: each polled observer holds the
      `last_mtime` its own probe dictates, the rest are untouched, old
      buffers are untouched, every new buffer has one reference per receiver
      and one message per receiver, and messages go out in snapshot order
      carrying the bytes just read for their observer. */
  ghost predicate Polled(p: Poller, obs0: seq<Observer>, heap0: Heap, nrecv: nat, probes: seq<Probe>, k: nat)
    requires k <= |probes| <= |obs0|
  {
    && PolledObservers(p, obs0, probes, k)
    && PolledHeap(p, heap0, nrecv)
    && PolledSent(p, heap0, nrecv, probes, k)
    && SentInOrder(p.sent)
    && SentVersions(p.sent)
    && PolledAbout(p, obs0, nrecv, probes, k)
    && PolledHeard(p, obs0, nrecv, probes, k)
    && SentBuffers(p.sent)
    && |p.heap| == |heap0| + Reloads(obs0, probes, k)
  }

  /** Number of the first `k` snapshot entries whose probe makes them
      reload: the number of buffers a pass over them allocates. */
  function Reloads(obs0: seq<Observer>, probes: seq<Probe>, k: nat): (n: nat)
    requires k <= |probes| <= |obs0|
    ensures n <= k
  {
    if k == 0 then 0
    else Reloads(obs0, probes, k - 1) + (if Decide(obs0[k - 1].lastMtime, probes[k - 1].stat, probes[k - 1].read).Reload? then 1 else 0)
  }

  ghost predicate PolledObservers(p: Poller, obs0: seq<Observer>, probes: seq<Probe>, k: nat)
    requires k <= |probes| <= |obs0|
  {
    && |p.observers| == |obs0|
    && (forall i :: 0 <= i < k ==>
          p.observers[i] == Observer(obs0[i].filename,
                                     After(obs0[i].lastMtime, Decide(obs0[i].lastMtime, probes[i].stat, probes[i].read))))
    && (forall i :: k <= i < |obs0| ==> p.observers[i] == obs0[i])
  }

  ghost predicate PolledHeap(p: Poller, heap0: Heap, nrecv: nat)
  {
    && |heap0| <= |p.heap| && p.heap[..|heap0|] == heap0
    && (forall id :: |heap0| <= id < |p.heap| ==>
          p.heap[id].refcount == nrecv && Count(p.sent, id) == nrecv && (p.heap[id].freed <==> nrecv == 0))
  }

  ghost predicate PolledSent(p: Poller, heap0: Heap, nrecv: nat, probes: seq<Probe>, k: nat)
    requires k <= |probes|
  {
    forall m :: m in p.sent ==>
      && |heap0| <= m.contents < |p.heap| && m.receiver < nrecv && m.observer < k
      && probes[m.observer].read.ReadOk? && p.heap[m.contents].content == probes[m.observer].read.bytes
  }

  /** Observer `i` is the subject of one message per receiver if its own
      probe made it reload, and of none otherwise. */
  ghost predicate PolledAbout(p: Poller, obs0: seq<Observer>, nrecv: nat, probes: seq<Probe>, k: nat)
    requires k <= |probes| <= |obs0|
  {
    forall i :: 0 <= i < |obs0| ==>
      About(p.sent, i) == (if i < k && Decide(obs0[i].lastMtime, probes[i].stat, probes[i].read).Reload? then nrecv else 0)
  }

  /** Receiver `j` is sent exactly one message about observer `i` if `i`'s
      own probe made it reload, and none otherwise. */
  ghost predicate PolledHeard(p: Poller, obs0: seq<Observer>, nrecv: nat, probes: seq<Probe>, k: nat)
    requires k <= |probes| <= |obs0|
  {
    forall i, j :: 0 <= i < |obs0| && 0 <= j < nrecv ==>
      Heard(p.sent, j, i) ==
        (if i < k && Decide(obs0[i].lastMtime, probes[i].stat, probes[i].read).Reload? then 1 else 0)
  }

  /** Number of messages in `sent` that receiver `j` gets about observer
      `i`. */
  function Heard(sent: seq<Message>, j: nat, i: nat): nat
  {
    About(ForReceiver(sent, j), i)
  }

  /** Within one cycle a buffer belongs to one observer and an observer to
      one buffer: all messages about a reload share that reload's buffer. */
  ghost predicate SentBuffers(sent: seq<Message>)
  {
    forall a, b :: 0 <= a < |sent| && 0 <= b < |sent| ==>
      (sent[a].contents == sent[b].contents <==> sent[a].observer == sent[b].observer)
  }

  /** Two messages for the same receiver carry different buffers, the later
      one allocated later. */
  ghost predicate SentVersions(sent: seq<Message>)
  {
    forall a, b :: 0 <= a < b < |sent| && sent[a].receiver == sent[b].receiver ==> sent[a].contents < sent[b].contents
  }

  /** Messages about earlier snapshot entries precede those about later ones. */
  ghost predicate SentInOrder(sent: seq<Message>)
  {
    forall a, b :: 0 <= a < b < |sent| ==> sent[a].observer <= sent[b].observer
  }

  /** The first `k` steps of a cycle over the snapshot `obs0[..|probes|]`. */
  function PollPrefix(obs0: seq<Observer>, heap0: Heap, nrecv: nat, probes: seq<Probe>, k: nat): (r: Poller)
    requires k <= |probes| <= |obs0|
    ensures Polled(r, obs0, heap0, nrecv, probes, k)
    decreases k
  {
    if k == 0 then
      assert forall j: nat :: ForReceiver([], j) == [];
      Poller(obs0, heap0, [])
    else
      var p := PollPrefix(obs0, heap0, nrecv, probes, k - 1);
      var r := PollOne(p, nrecv, k - 1, probes[k - 1]);
      PollStepKeeps(p, r, obs0, heap0, nrecv, probes, k);
      r
  }

  /** Number of messages in `q` about observer `i`. */
  function About(q: seq<Message>, i: nat): nat
  {
    if |q| == 0 then 0 else (if q[0].observer == i then 1 else 0) + About(q[1..], i)
  }

  lemma AboutConcat(a: seq<Message>, b: seq<Message>, i: nat)
    ensures About(a + b, i) == About(a, i) + About(b, i)
  {
    if |a| > 0 {
      assert (a + b)[1..] == a[1..] + b;
      AboutConcat(a[1..], b, i);
    } else {
      assert a + b == b;
    }
  }

  lemma AboutNone(q: seq<Message>, i: nat)
    requires forall m :: m in q ==> m.observer != i
    ensures About(q, i) == 0
  {
    if |q| > 0 {
      assert q[0] in q;
      AboutNone(q[1..], i);
    }
  }

  lemma AboutAll(q: seq<Message>, i: nat)
    requires forall m :: m in q ==> m.observer == i
    ensures About(q, i) == |q|
  {
    if |q| > 0 {
      assert q[0] in q;
      AboutAll(q[1..], i);
    }
  }

  lemma CountConcat(a: seq<Message>, b: seq<Message>, id: nat)
    ensures Count(a + b, id) == Count(a, id) + Count(b, id)
  {
    if |a| > 0 {
      assert (a + b)[1..] == a[1..] + b;
      CountConcat(a[1..], b, id);
    } else {
      assert a + b == b;
    }
  }

  lemma CountNone(q: seq<Message>, id: nat)
    requires forall m :: m in q ==> m.contents != id
    ensures Count(q, id) == 0
  {
    if |q| > 0 {
      assert q[0] in q;
      CountNone(q[1..], id);
    }
  }

  lemma CountAll(q: seq<Message>, id: nat)
    requires forall m :: m in q ==> m.contents == id
    ensures Count(q, id) == |q|
  {
    if |q| > 0 {
      assert q[0] in q;
      CountAll(q[1..], id);
    }
  }

  lemma PollStepKeeps(p: Poller, r: Poller, obs0: seq<Observer>, heap0: Heap, nrecv: nat, probes: seq<Probe>, k: nat)
    requires 0 < k <= |probes| <= |obs0|
    requires Polled(p, obs0, heap0, nrecv, probes, k - 1)
    requires r == PollOne(p, nrecv, k - 1, probes[k - 1])
    ensures Polled(r, obs0, heap0, nrecv, probes, k)
  {
    ObserversStep(p, r, obs0, nrecv, probes, k);
    if Decide(obs0[k - 1].lastMtime, probes[k - 1].stat, probes[k - 1].read).Reload? {
      ReloadStep(p, r, obs0, heap0, nrecv, probes, k);
    } else {
      SkipKeeps(p, r, obs0, heap0, nrecv, probes, k);
    }
  }

  lemma ObserversStep(p: Poller, r: Poller, obs0: seq<Observer>, nrecv: nat, probes: seq<Probe>, k: nat)
    requires 0 < k <= |probes| <= |obs0|
    requires PolledObservers(p, obs0, probes, k - 1)
    requires r == PollOne(p, nrecv, k - 1, probes[k - 1])
    ensures PolledObservers(r, obs0, probes, k)
    ensures p.observers[k - 1] == obs0[k - 1]
  {
  }

  lemma ReloadStep(p: Poller, r: Poller, obs0: seq<Observer>, heap0: Heap, nrecv: nat, probes: seq<Probe>, k: nat)
    requires 0 < k <= |probes| <= |obs0| && k - 1 < |p.observers| && p.observers[k - 1] == obs0[k - 1]
    requires PolledHeap(p, heap0, nrecv) && PolledSent(p, heap0, nrecv, probes, k - 1)
    requires SentInOrder(p.sent) && SentVersions(p.sent) && PolledAbout(p, obs0, nrecv, probes, k - 1)
    requires PolledHeard(p, obs0, nrecv, probes, k - 1) && SentBuffers(p.sent)
    requires r == PollOne(p, nrecv, k - 1, probes[k - 1])
    requires Decide(obs0[k - 1].lastMtime, probes[k - 1].stat, probes[k - 1].read).Reload?
    ensures PolledHeap(r, heap0, nrecv) && PolledSent(r, heap0, nrecv, probes, k)
    ensures SentInOrder(r.sent) && SentVersions(r.sent) && PolledAbout(r, obs0, nrecv, probes, k)
    ensures PolledHeard(r, obs0, nrecv, probes, k) && SentBuffers(r.sent)
  {
    var i := k - 1;
    var msgs := r.sent[|p.sent|..];
    assert r.sent == p.sent + msgs;
    ReloadMsgs(p, r, nrecv, i, probes[i], msgs);
    ReloadKeepsHeap(p, r, heap0, nrecv, msgs);
    ReloadKeepsSent(p, r, heap0, nrecv, probes, k, msgs);
    ReloadKeepsOrder(p, r, msgs, i);
    ReloadKeepsVersions(p, r, msgs);
    ReloadKeepsAbout(p, r, obs0, nrecv, probes, k, msgs);
    ReloadKeepsHeard(p, r, obs0, nrecv, probes, k, msgs);
    ReloadKeepsBuffers(p, r, msgs, k - 1);
  }

  lemma SkipKeeps(p: Poller, r: Poller, obs0: seq<Observer>, heap0: Heap, nrecv: nat, probes: seq<Probe>, k: nat)
    requires 0 < k <= |probes| <= |obs0| && k - 1 < |p.observers| && p.observers[k - 1] == obs0[k - 1]
    requires PolledHeap(p, heap0, nrecv) && PolledSent(p, heap0, nrecv, probes, k - 1)
    requires SentInOrder(p.sent) && SentVersions(p.sent) && PolledAbout(p, obs0, nrecv, probes, k - 1)
    requires PolledHeard(p, obs0, nrecv, probes, k - 1) && SentBuffers(p.sent)
    requires r == PollOne(p, nrecv, k - 1, probes[k - 1])
    requires !Decide(obs0[k - 1].lastMtime, probes[k - 1].stat, probes[k - 1].read).Reload?
    ensures PolledHeap(r, heap0, nrecv) && PolledSent(r, heap0, nrecv, probes, k)
    ensures SentInOrder(r.sent) && SentVersions(r.sent) && PolledAbout(r, obs0, nrecv, probes, k)
    ensures PolledHeard(r, obs0, nrecv, probes, k) && SentBuffers(r.sent)
  {
  }

  lemma ReloadKeepsAbout(p: Poller, r: Poller, obs0: seq<Observer>, nrecv: nat, probes: seq<Probe>, k: nat, msgs: seq<Message>)
    requires 0 < k <= |probes| <= |obs0|
    requires PolledAbout(p, obs0, nrecv, probes, k - 1)
    requires Decide(obs0[k - 1].lastMtime, probes[k - 1].stat, probes[k - 1].read).Reload?
    requires r.sent == p.sent + msgs && |msgs| == nrecv
    requires forall m :: m in msgs ==> m.observer == k - 1
    ensures PolledAbout(r, obs0, nrecv, probes, k)
  {
    forall x | 0 <= x < |obs0|
      ensures About(r.sent, x) == (if x < k && Decide(obs0[x].lastMtime, probes[x].stat, probes[x].read).Reload? then nrecv else 0)
    {
      AboutConcat(p.sent, msgs, x);
      if x == k - 1 {
        AboutAll(msgs, x);
      } else {
        AboutNone(msgs, x);
      }
    }
  }

  lemma ReloadKeepsHeard(p: Poller, r: Poller, obs0: seq<Observer>, nrecv: nat, probes: seq<Probe>, k: nat, msgs: seq<Message>)
    requires 0 < k <= |probes| <= |obs0|
    requires PolledHeard(p, obs0, nrecv, probes, k - 1)
    requires Decide(obs0[k - 1].lastMtime, probes[k - 1].stat, probes[k - 1].read).Reload?
    requires r.sent == p.sent + msgs && |msgs| == nrecv
    requires forall m :: m in msgs ==> m.observer == k - 1
    requires forall j :: 0 <= j < |msgs| ==> msgs[j].receiver == j
    ensures PolledHeard(r, obs0, nrecv, probes, k)
  {
    forall x, j | 0 <= x < |obs0| && 0 <= j < nrecv
      ensures Heard(r.sent, j, x) ==
                (if x < k && Decide(obs0[x].lastMtime, probes[x].stat, probes[x].read).Reload? then 1 else 0)
    {
      var mine := ForReceiver(msgs, j);
      assert Heard(p.sent, j, x) ==
               (if x < k - 1 && Decide(obs0[x].lastMtime, probes[x].stat, probes[x].read).Reload? then 1 else 0);
      ForReceiverConcat(p.sent, msgs, j);
      AboutConcat(ForReceiver(p.sent, j), mine, x);
      ForReceiverOnePer(msgs, 0, j);
      forall m | m in mine
        ensures m.observer == k - 1
      {
        ForReceiverIn(msgs, j, m);
      }
      if x == k - 1 {
        AboutAll(mine, x);
        assert About(mine, x) == 1;
      } else {
        AboutNone(mine, x);
      }
    }
  }

  lemma {:induction false} ForReceiverConcat(a: seq<Message>, b: seq<Message>, j: nat)
    ensures ForReceiver(a + b, j) == ForReceiver(a, j) + ForReceiver(b, j)
    decreases |a|
  {
    if |a| > 0 {
      assert (a + b)[1..] == a[1..] + b;
      ForReceiverConcat(a[1..], b, j);
    } else {
      assert a + b == b;
    }
  }

  /** Messages addressed to `base`, `base + 1`, ... in turn: each receiver
      in that range gets exactly one of them. */
  lemma {:induction false} ForReceiverOnePer(msgs: seq<Message>, base: nat, j: nat)
    requires forall t :: 0 <= t < |msgs| ==> msgs[t].receiver == base + t
    ensures |ForReceiver(msgs, j)| == (if base <= j < base + |msgs| then 1 else 0)
    decreases |msgs|
  {
    if |msgs| > 0 {
      ForReceiverOnePer(msgs[1..], base + 1, j);
    }
  }

  lemma ReloadKeepsBuffers(p: Poller, r: Poller, msgs: seq<Message>, i: nat)
    requires SentBuffers(p.sent)
    requires forall m :: m in p.sent ==> m.contents < |p.heap| && m.observer < i
    requires r.sent == p.sent + msgs
    requires forall m :: m in msgs ==> m.contents == |p.heap| && m.observer == i
    ensures SentBuffers(r.sent)
  {
    forall a, b | 0 <= a < |r.sent| && 0 <= b < |r.sent|
      ensures r.sent[a].contents == r.sent[b].contents <==> r.sent[a].observer == r.sent[b].observer
    {
      if a < |p.sent| {
        assert r.sent[a] == p.sent[a] && p.sent[a] in p.sent;
      } else {
        assert r.sent[a] == msgs[a - |p.sent|] && msgs[a - |p.sent|] in msgs;
      }
      if b < |p.sent| {
        assert r.sent[b] == p.sent[b] && p.sent[b] in p.sent;
      } else {
        assert r.sent[b] == msgs[b - |p.sent|] && msgs[b - |p.sent|] in msgs;
      }
    }
  }

  lemma ReloadKeepsVersions(p: Poller, r: Poller, msgs: seq<Message>)
    requires SentVersions(p.sent)
    requires forall m :: m in p.sent ==> m.contents < |p.heap|
    requires r.sent == p.sent + msgs
    requires forall m :: m in msgs ==> m.contents == |p.heap|
    requires forall j :: 0 <= j < |msgs| ==> msgs[j].receiver == j
    ensures SentVersions(r.sent)
  {
    forall a, b | 0 <= a < b < |r.sent| && r.sent[a].receiver == r.sent[b].receiver
      ensures r.sent[a].contents < r.sent[b].contents
    {
      if b < |p.sent| {
        assert r.sent[a] == p.sent[a] && r.sent[b] == p.sent[b];
      } else {
        assert r.sent[b] == msgs[b - |p.sent|];
        assert msgs[b - |p.sent|] in msgs;
        if a < |p.sent| {
          assert r.sent[a] == p.sent[a] && p.sent[a] in p.sent;
        }
      }
    }
  }

  /** The messages one reload appends. */
  lemma ReloadMsgs(p: Poller, r: Poller, nrecv: nat, i: nat, pr: Probe, msgs: seq<Message>)
    requires i < |p.observers| && r == PollOne(p, nrecv, i, pr)
    requires Decide(p.observers[i].lastMtime, pr.stat, pr.read).Reload?
    requires msgs == r.sent[|p.sent|..]
    ensures forall m :: m in msgs ==> m.contents == |p.heap| && m.observer == i && m.receiver < nrecv
    ensures |msgs| == nrecv && forall j :: 0 <= j < |msgs| ==> msgs[j].receiver == j
  {
    forall m | m in msgs
      ensures m.contents == |p.heap| && m.observer == i && m.receiver < nrecv
    {
      var j :| 0 <= j < |msgs| && msgs[j] == m;
      assert r.sent[|p.sent| + j] == m;
    }
  }

  lemma ReloadKeepsHeap(p: Poller, r: Poller, heap0: Heap, nrecv: nat, msgs: seq<Message>)
    requires PolledHeap(p, heap0, nrecv)
    requires forall m :: m in p.sent ==> m.contents < |p.heap|
    requires |r.heap| == |p.heap| + 1 && r.heap[..|p.heap|] == p.heap
    requires r.heap[|p.heap|].refcount == nrecv && (r.heap[|p.heap|].freed <==> nrecv == 0)
    requires r.sent == p.sent + msgs && |msgs| == nrecv
    requires forall m :: m in msgs ==> m.contents == |p.heap|
    ensures PolledHeap(r, heap0, nrecv)
  {
    var id := |p.heap|;
    assert r.heap[..|heap0|] == r.heap[..|p.heap|][..|heap0|];
    forall x | |heap0| <= x < |r.heap|
      ensures r.heap[x].refcount == nrecv && Count(r.sent, x) == nrecv && (r.heap[x].freed <==> nrecv == 0)
    {
      CountConcat(p.sent, msgs, x);
      if x == id {
        CountNone(p.sent, x);
        CountAll(msgs, x);
      } else {
        assert r.heap[x] == r.heap[..|p.heap|][x];
        CountNone(msgs, x);
      }
    }
  }

  lemma ReloadKeepsSent(p: Poller, r: Poller, heap0: Heap, nrecv: nat, probes: seq<Probe>, k: nat, msgs: seq<Message>)
    requires 0 < k <= |probes|
    requires PolledSent(p, heap0, nrecv, probes, k - 1)
    requires |heap0| <= |p.heap| && |r.heap| == |p.heap| + 1 && r.heap[..|p.heap|] == p.heap
    requires probes[k - 1].read.ReadOk? && r.heap[|p.heap|].content == probes[k - 1].read.bytes
    requires r.sent == p.sent + msgs
    requires forall m :: m in msgs ==> m.contents == |p.heap| && m.observer == k - 1 && m.receiver < nrecv
    ensures PolledSent(r, heap0, nrecv, probes, k)
  {
    forall m | m in r.sent
      ensures && |heap0| <= m.contents < |r.heap| && m.receiver < nrecv && m.observer < k
              && probes[m.observer].read.ReadOk? && r.heap[m.contents].content == probes[m.observer].read.bytes
    {
      if m in p.sent {
        assert r.heap[m.contents] == r.heap[..|p.heap|][m.contents];
      } else {
        assert m in msgs;
      }
    }
  }

  lemma ReloadKeepsOrder(p: Poller, r: Poller, msgs: seq<Message>, i: nat)
    requires SentInOrder(p.sent)
    requires forall m :: m in p.sent ==> m.observer < i
    requires r.sent == p.sent + msgs
    requires forall m :: m in msgs ==> m.observer == i
    ensures SentInOrder(r.sent)
  {
    forall a, b | 0 <= a < b < |r.sent|
      ensures r.sent[a].observer <= r.sent[b].observer
    {
      if b < |p.sent| {
        assert r.sent[a] == p.sent[a] && r.sent[b] == p.sent[b];
      } else {
        assert r.sent[b] == msgs[b - |p.sent|];
        assert msgs[b - |p.sent|] in msgs;
        if a < |p.sent| {
          assert r.sent[a] == p.sent[a] && p.sent[a] in p.sent;
        } else {
          assert r.sent[a] == msgs[a - |p.sent|];
          assert msgs[a - |p.sent|] in msgs;
        }
      }
    }
  }

  // ---------------------------------------------------------------------
  // Delivery and the cycle as a whole

  /** The messages of `msgs` addressed to receiver `j`, in sending order. */
  function ForReceiver(msgs: seq<Message>, j: nat): seq<Message>
  {
    if |msgs| == 0 then []
    else (if msgs[0].receiver == j then [msgs[0]] else []) + ForReceiver(msgs[1..], j)
  }

  /** `h2o_multithread_send_message` for each message in turn: append it to
      the addressed receiver's FIFO list. */
  function Deliver(rs: seq<Receiver>, msgs: seq<Message>): (r: seq<Receiver>)
    requires forall m :: m in msgs ==> m.receiver < |rs|
    ensures |r| == |rs|
    ensures forall j :: 0 <= j < |rs| ==> r[j] == Receiver(rs[j].ctx, rs[j].queue + ForReceiver(msgs, j))
    decreases |msgs|
  {
    if |msgs| == 0 then rs
    else
      assert msgs[0] in msgs && forall x :: x in msgs[1..] ==> x in msgs;
      var rs1 := Enqueue(rs, msgs[0]);
      var r := Deliver(rs1, msgs[1..]);
      DeliverStep(rs, rs1, msgs, r);
      r
  }

  /** One `h2o_multithread_send_message`: append `m` to its receiver's list. */
  function Enqueue(rs: seq<Receiver>, m: Message): (r: seq<Receiver>)
    requires m.receiver < |rs|
    ensures |r| == |rs| && r[m.receiver] == Receiver(rs[m.receiver].ctx, rs[m.receiver].queue + [m])
    ensures forall j :: 0 <= j < |rs| && j != m.receiver ==> r[j] == rs[j]
  {
    rs[m.receiver := Receiver(rs[m.receiver].ctx, rs[m.receiver].queue + [m])]
  }

  lemma {:induction false} DeliverStep(rs: seq<Receiver>, rs1: seq<Receiver>, msgs: seq<Message>, r: seq<Receiver>)
    requires |msgs| > 0 && msgs[0].receiver < |rs| && rs1 == Enqueue(rs, msgs[0])
    requires |r| == |rs1|
    requires forall j :: 0 <= j < |rs1| ==> r[j] == Receiver(rs1[j].ctx, rs1[j].queue + ForReceiver(msgs[1..], j))
    ensures forall j :: 0 <= j < |rs| ==> r[j] == Receiver(rs[j].ctx, rs[j].queue + ForReceiver(msgs, j))
  {
    var m := msgs[0];
    forall j | 0 <= j < |rs|
      ensures r[j] == Receiver(rs[j].ctx, rs[j].queue + ForReceiver(msgs, j))
    {
      if j == m.receiver {
        assert rs[j].queue + [m] + ForReceiver(msgs[1..], j) == rs[j].queue + ([m] + ForReceiver(msgs[1..], j));
      }
    }
  }


  /** The poller's pass over the snapshot `s.observers[..|probes|]` (the
      copy taken at the start of the cycle; observers created since sit
      later in the append-only vector and are left for the next cycle). */
  function Cycle(s: State, probes: seq<Probe>): (p: Poller)
    requires |probes| <= |s.observers|
    ensures |p.observers| == |s.observers|
    ensures forall i :: 0 <= i < |probes| ==>
              p.observers[i] == Observer(s.observers[i].filename,
                                         After(s.observers[i].lastMtime, Decide(s.observers[i].lastMtime, probes[i].stat, probes[i].read)))
    ensures forall i :: |probes| <= i < |s.observers| ==> p.observers[i] == s.observers[i]
    ensures forall i :: 0 <= i < |s.observers| ==>
              About(p.sent, i) == (if i < |probes| && Decide(s.observers[i].lastMtime, probes[i].stat, probes[i].read).Reload?
                                   then |s.receivers| else 0)
    ensures forall i, j :: 0 <= i < |s.observers| && 0 <= j < |s.receivers| ==>
              Heard(p.sent, j, i) ==
                (if i < |probes| && Decide(s.observers[i].lastMtime, probes[i].stat, probes[i].read).Reload? then 1 else 0)
    ensures SentBuffers(p.sent)
    ensures SentInOrder(p.sent) && SentVersions(p.sent)
    ensures |s.heap| <= |p.heap| && p.heap[..|s.heap|] == s.heap
    ensures |p.heap| == |s.heap| + Reloads(s.observers, probes, |probes|)
    ensures forall id :: |s.heap| <= id < |p.heap| ==>
              && p.heap[id].refcount == |s.receivers| && Count(p.sent, id) == |s.receivers|
              && (p.heap[id].freed <==> |s.receivers| == 0)
    ensures forall m :: m in p.sent ==>
              && |s.heap| <= m.contents < |p.heap| && m.receiver < |s.receivers| && m.observer < |probes|
              && probes[m.observer].read.ReadOk? && p.heap[m.contents].content == probes[m.observer].read.bytes
  {
    PollPrefix(s.observers, s.heap, |s.receivers|, probes, |probes|)
  }


  /** One full cycle: the poller's pass, then delivery of what it sent. */
  function RunCycle(s: State, probes: seq<Probe>): (r: State)
    requires |probes| <= |s.observers|
    ensures r.observers == Cycle(s, probes).observers && r.heap == Cycle(s, probes).heap
    ensures r.receivers == Deliver(s.receivers, Cycle(s, probes).sent)
    ensures r.onceTaken == s.onceTaken && r.pollerThreads == s.pollerThreads
    ensures Registered(s) ==> Registered(r)
  {
    var p := Cycle(s, probes);
    s.(observers := p.observers, heap := p.heap, receivers := Deliver(s.receivers, p.sent))
  }

  // ---------------------------------------------------------------------
  // Reference-count balance

  /** References to buffer `id` held by messages still waiting in any queue. */
  function Pending(rs: seq<Receiver>, id: nat): nat
  {
    if |rs| == 0 then 0 else Count(rs[0].queue, id) + Pending(rs[1..], id)
  }

  /** The refcount protocol's invariant: every queued message is routed to
      its own receiver and names an existing observer and buffer, and every
      buffer's count is exactly the number of queued messages holding it, so
      it has been disposed exactly when none remain. */
  predicate Balanced(s: State)
  {
    && (forall j, m :: 0 <= j < |s.receivers| && m in s.receivers[j].queue ==>
          m.receiver == j && m.contents < |s.heap| && m.observer < |s.observers|)
    && forall id :: 0 <= id < |s.heap| ==>
         s.heap[id].refcount == Pending(s.receivers, id) && (s.heap[id].freed <==> s.heap[id].refcount == 0)
  }

  lemma PendingUpdate(rs: seq<Receiver>, j: nat, r: Receiver, id: nat)
    requires j < |rs|
    ensures Pending(rs[j := r], id) + Count(rs[j].queue, id) == Pending(rs, id) + Count(r.queue, id)
  {
    if j > 0 {
      assert rs[j := r][1..] == rs[1..][j - 1 := r];
      PendingUpdate(rs[1..], j - 1, r, id);
    } else {
      assert rs[j := r][1..] == rs[1..];
    }
  }

  lemma CountLePending(rs: seq<Receiver>, j: nat, id: nat)
    requires j < |rs|
    ensures Count(rs[j].queue, id) <= Pending(rs, id)
  {
    if j > 0 {
      CountLePending(rs[1..], j - 1, id);
    }
  }

  lemma PendingNone(rs: seq<Receiver>, id: nat)
    requires forall j, m :: 0 <= j < |rs| && m in rs[j].queue ==> m.contents != id
    ensures Pending(rs, id) == 0
  {
    if |rs| > 0 {
      CountNone(rs[0].queue, id);
      assert forall j, m :: 0 <= j < |rs| - 1 && m in rs[1..][j].queue ==> m in rs[j + 1].queue;
      PendingNone(rs[1..], id);
    }
  }

  lemma PendingEmpty(rs: seq<Receiver>, id: nat)
    requires forall j :: 0 <= j < |rs| ==> rs[j].queue == []
    ensures Pending(rs, id) == 0
  {
    if |rs| > 0 {
      PendingEmpty(rs[1..], id);
    }
  }

  lemma {:induction false} DeliverPending(rs: seq<Receiver>, msgs: seq<Message>, id: nat)
    requires forall m :: m in msgs ==> m.receiver < |rs|
    ensures Pending(Deliver(rs, msgs), id) == Pending(rs, id) + Count(msgs, id)
    decreases |msgs|
  {
    if |msgs| > 0 {
      var m := msgs[0];
      assert m in msgs;
      var rs1 := rs[m.receiver := Receiver(rs[m.receiver].ctx, rs[m.receiver].queue + [m])];
      PendingUpdate(rs, m.receiver, rs1[m.receiver], id);
      CountConcat(rs[m.receiver].queue, [m], id);
      assert Count([m], id) == (if m.contents == id then 1 else 0) by {
        assert [m][1..] == [];
      }
      assert forall x :: x in msgs[1..] ==> x in msgs;
      DeliverPending(rs1, msgs[1..], id);
      assert Deliver(rs, msgs) == Deliver(rs1, msgs[1..]);
    }
  }

  lemma ForReceiverIn(msgs: seq<Message>, j: nat, m: Message)
    requires m in ForReceiver(msgs, j)
    ensures m in msgs && m.receiver == j
  {
    if |msgs| > 0 {
      if m != msgs[0] || msgs[0].receiver != j {
        ForReceiverIn(msgs[1..], j, m);
      }
    }
  }

  /** A cycle keeps the refcount protocol balanced, whatever the probes. */
  lemma {:induction false} CycleKeepsBalance(s: State, probes: seq<Probe>)
    requires Balanced(s) && |probes| <= |s.observers|
    ensures Balanced(RunCycle(s, probes))
  {
    var p := Cycle(s, probes);
    DeliverKeepsBalance(s, p);
  }

  /** Installing a poller result whose new buffers are each referenced once
      per message sent, and whose messages name only new buffers, keeps the
      protocol balanced. */
  lemma DeliverKeepsBalance(s: State, p: Poller)
    requires Balanced(s) && |p.observers| == |s.observers|
    requires |s.heap| <= |p.heap| && p.heap[..|s.heap|] == s.heap
    requires forall id :: |s.heap| <= id < |p.heap| ==>
               p.heap[id].refcount == Count(p.sent, id) && (p.heap[id].freed <==> p.heap[id].refcount == 0)
    requires forall m :: m in p.sent ==> |s.heap| <= m.contents < |p.heap| && m.receiver < |s.receivers| && m.observer < |s.observers|
    ensures Balanced(s.(observers := p.observers, heap := p.heap, receivers := Deliver(s.receivers, p.sent)))
  {
    var r := s.(observers := p.observers, heap := p.heap, receivers := Deliver(s.receivers, p.sent));
    forall j, m | 0 <= j < |r.receivers| && m in r.receivers[j].queue
      ensures m.receiver == j && m.contents < |r.heap| && m.observer < |r.observers|
    {
      assert r.receivers[j].queue == s.receivers[j].queue + ForReceiver(p.sent, j);
      if m !in s.receivers[j].queue {
        ForReceiverIn(p.sent, j, m);
      }
    }
    forall id | 0 <= id < |r.heap|
      ensures r.heap[id].refcount == Pending(r.receivers, id) && (r.heap[id].freed <==> r.heap[id].refcount == 0)
    {
      DeliverPending(s.receivers, p.sent, id);
      if id < |s.heap| {
        assert r.heap[id] == p.heap[..|s.heap|][id];
        CountNone(p.sent, id);
      } else {
        PendingNone(s.receivers, id);
      }
    }
  }

  /** Buffers in `q` appear in allocation order. */
  predicate Increasing(q: seq<Message>)
  {
    forall a, b :: 0 <= a < b < |q| ==> q[a].contents < q[b].contents
  }

  /** Each receiver's list holds buffers in allocation order, so successive
      versions of a file reach a receiver in the order they were read. */
  predicate InOrder(s: State)
  {
    forall j :: 0 <= j < |s.receivers| ==> Increasing(s.receivers[j].queue)
  }

  lemma {:induction false} ForReceiverIncreasing(msgs: seq<Message>, j: nat)
    requires SentVersions(msgs)
    ensures Increasing(ForReceiver(msgs, j))
    decreases |msgs|
  {
    if |msgs| > 0 {
      var tail := ForReceiver(msgs[1..], j);
      assert SentVersions(msgs[1..]) by {
        forall a, b | 0 <= a < b < |msgs[1..]| && msgs[1..][a].receiver == msgs[1..][b].receiver
          ensures msgs[1..][a].contents < msgs[1..][b].contents
        {
          assert msgs[1..][a] == msgs[a + 1] && msgs[1..][b] == msgs[b + 1];
        }
      }
      ForReceiverIncreasing(msgs[1..], j);
      if msgs[0].receiver == j {
        forall m | m in tail
          ensures msgs[0].contents < m.contents
        {
          ForReceiverIn(msgs[1..], j, m);
          var b :| 0 <= b < |msgs[1..]| && msgs[1..][b] == m;
          assert msgs[b + 1] == m;
        }
        var q := [msgs[0]] + tail;
        forall a, b | 0 <= a < b < |q|
          ensures q[a].contents < q[b].contents
        {
          assert q[b] == tail[b - 1] && tail[b - 1] in tail;
          if a > 0 {
            assert q[a] == tail[a - 1];
          }
        }
      }
    }
  }

  /** Delivery after a cycle keeps every list in allocation order: what was
      queued before names older buffers than anything the cycle sent. */
  lemma {:induction false} CycleKeepsOrder(s: State, probes: seq<Probe>)
    requires Balanced(s) && InOrder(s) && |probes| <= |s.observers|
    ensures InOrder(RunCycle(s, probes))
  {
    var p := Cycle(s, probes);
    var r := RunCycle(s, probes);
    forall j | 0 <= j < |r.receivers|
      ensures Increasing(r.receivers[j].queue)
    {
      var added := ForReceiver(p.sent, j);
      ForReceiverIncreasing(p.sent, j);
      forall m | m in added
        ensures |s.heap| <= m.contents
      {
        ForReceiverIn(p.sent, j, m);
      }
      AppendIncreasing(s.receivers[j].queue, added, |s.heap|);
    }
  }

  lemma AppendIncreasing(before: seq<Message>, added: seq<Message>, bound: nat)
    requires Increasing(before) && Increasing(added)
    requires forall m :: m in before ==> m.contents < bound
    requires forall m :: m in added ==> bound <= m.contents
    ensures Increasing(before + added)
  {
    var q := before + added;
    forall a, b | 0 <= a < b < |q|
      ensures q[a].contents < q[b].contents
    {
      if b < |before| {
        assert q[a] == before[a] && q[b] == before[b];
      } else if a < |before| {
        assert q[a] == before[a] && before[a] in before;
        assert q[b] == added[b - |before|] && added[b - |before|] in added;
      } else {
        assert q[a] == added[a - |before|] && q[b] == added[b - |before|];
      }
    }
  }


  // ---------------------------------------------------------------------
  // The receiver side

  /** `h2o_file_observer_receiver`: take messages from the head of the list
      until it is empty; for each, run the observer's callback with the
      buffer's bytes and then drop the message's reference. */
  method Drain(heap: Heap, queue: seq<Message>) returns (h: Heap, calls: seq<Invocation>)
    requires Wf(heap)
    requires forall m :: m in queue ==> m.contents < |heap|
    requires forall id :: 0 <= id < |heap| ==> Count(queue, id) <= heap[id].refcount
    ensures |calls| == |queue|
    ensures forall k :: 0 <= k < |queue| ==>
              calls[k] == Invocation(queue[k].observer, heap[queue[k].contents].content)
    ensures |h| == |heap| && Wf(h)
    ensures forall id :: 0 <= id < |heap| ==>
              h[id].content == heap[id].content && h[id].refcount + Count(queue, id) == heap[id].refcount
  {
    h := heap;
    calls := [];
    var rest := queue;
    while rest != []
      invariant |rest| <= |queue| && rest == queue[|queue| - |rest|..]
      invariant |calls| == |queue| - |rest|
      invariant forall k :: 0 <= k < |calls| ==>
                  calls[k] == Invocation(queue[k].observer, heap[queue[k].contents].content)
      invariant |h| == |heap| && Wf(h)
      invariant forall id :: 0 <= id < |heap| ==>
                  h[id].content == heap[id].content && h[id].refcount + Count(queue, id) == heap[id].refcount + Count(rest, id)
    {
      var m := rest[0];
      assert m == queue[|calls|] && m in queue;
      calls := calls + [Invocation(m.observer, h[m.contents].content)];
      h := Release(h, m.contents);
      rest := rest[1..];
    }
  }


  /** One receiver's turn: drain its list, leaving it empty; the protocol
      stays balanced, and a buffer ends up disposed exactly when this drain
      released the last reference to it. */
  method Receive(s: State, j: nat) returns (r: State, calls: seq<Invocation>)
    requires Balanced(s) && j < |s.receivers|
    ensures Balanced(r) && (InOrder(s) ==> InOrder(r))
    ensures |r.receivers| == |s.receivers| && r.receivers[j] == Receiver(s.receivers[j].ctx, [])
    ensures forall k :: 0 <= k < |s.receivers| && k != j ==> r.receivers[k] == s.receivers[k]
    ensures r.observers == s.observers && r.onceTaken == s.onceTaken && r.pollerThreads == s.pollerThreads
    ensures |calls| == |s.receivers[j].queue|
    ensures forall k :: 0 <= k < |calls| ==>
              calls[k] == Invocation(s.receivers[j].queue[k].observer, s.heap[s.receivers[j].queue[k].contents].content)
    ensures |r.heap| == |s.heap|
    ensures forall id :: 0 <= id < |s.heap| ==> r.heap[id].content == s.heap[id].content
    ensures forall id :: 0 <= id < |s.heap| ==>
              (r.heap[id].freed && !s.heap[id].freed <==> s.heap[id].refcount == Count(s.receivers[j].queue, id) > 0)
  {
    var q := s.receivers[j].queue;
    forall id | 0 <= id < |s.heap|
      ensures Count(q, id) <= s.heap[id].refcount
    {
      CountLePending(s.receivers, j, id);
    }
    assert Wf(s.heap);
    var h;
    h, calls := Drain(s.heap, q);
    var rs := s.receivers[j := Receiver(s.receivers[j].ctx, [])];
    r := s.(receivers := rs, heap := h);
    forall id | 0 <= id < |r.heap|
      ensures r.heap[id].refcount == Pending(r.receivers, id)
    {
      PendingUpdate(s.receivers, j, rs[j], id);
    }
  }

  /** Every receiver drains in turn; afterwards nothing is queued and every
      buffer ever allocated has been disposed. */
  method ReceiveAll(s: State) returns (r: State, calls: seq<seq<Invocation>>)
    requires Balanced(s)
    ensures Balanced(r) && |r.heap| == |s.heap| && r.observers == s.observers
    ensures |r.receivers| == |s.receivers| && |calls| == |s.receivers|
    ensures forall j :: 0 <= j < |s.receivers| ==>
              r.receivers[j] == Receiver(s.receivers[j].ctx, []) && |calls[j]| == |s.receivers[j].queue|
    ensures forall j, k :: 0 <= j < |s.receivers| && 0 <= k < |s.receivers[j].queue| ==>
              calls[j][k] == Invocation(s.receivers[j].queue[k].observer, s.heap[s.receivers[j].queue[k].contents].content)
    ensures forall id :: 0 <= id < |r.heap| ==> r.heap[id].freed && r.heap[id].content == s.heap[id].content
  {
    r := s;
    calls := [];
    var j := 0;
    while j < |s.receivers|
      invariant 0 <= j <= |s.receivers|
      invariant Balanced(r) && |r.heap| == |s.heap| && r.observers == s.observers
      invariant |r.receivers| == |s.receivers| && |calls| == j
      invariant forall k :: 0 <= k < j ==>
                  r.receivers[k] == Receiver(s.receivers[k].ctx, []) && |calls[k]| == |s.receivers[k].queue|
      invariant forall k, n :: 0 <= k < j && 0 <= n < |s.receivers[k].queue| ==>
                  calls[k][n] == Invocation(s.receivers[k].queue[n].observer, s.heap[s.receivers[k].queue[n].contents].content)
      invariant forall k :: j <= k < |s.receivers| ==> r.receivers[k] == s.receivers[k]
      invariant forall id :: 0 <= id < |s.heap| ==> r.heap[id].content == s.heap[id].content
    {
      var c;
      r, c := Receive(r, j);
      calls := calls + [c];
      j := j + 1;
    }
    forall id | 0 <= id < |r.heap|
      ensures r.heap[id].freed
    {
      PendingEmpty(r.receivers, id);
    }
  }
}
