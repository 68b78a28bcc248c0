/** Properties of the file observer that relate several operations: the
    per-observer rules of a cycle, fault isolation between observers,
    self-healing after a failure, and the `once` latch over any sequence of
    registrations. */
module FileObserverLemmas {
  import opened SharedMem
  import opened FileObserver

  // ---------------------------------------------------------------------
  // Per-observer rules of one cycle

  /** What one cycle does to snapshot entry `i`, case by case: a failed stat
      resets `last_mtime` to zero and sends nothing; an unchanged time keeps
      it and sends nothing; a failed read after a change resets it to zero,
      not to the new time, and sends nothing; a successful read commits the
      new time and sends every receiver exactly one message about `i`, all
      of them holding the one buffer with the bytes just read. */
  lemma CycleObserverRules(s: State, probes: seq<Probe>, i: nat)
    requires |probes| <= |s.observers| && i < |probes|
    ensures var p := Cycle(s, probes);
            var last := s.observers[i].lastMtime;
            var pr := probes[i];
            && p.observers[i].filename == s.observers[i].filename
            && (pr.stat.StatFail? ==>
                  && p.observers[i].lastMtime == Unknown
                  && forall j :: 0 <= j < |s.receivers| ==> Heard(p.sent, j, i) == 0)
            && (pr.stat.StatOk? && pr.stat.mtime == last ==>
                  && p.observers[i].lastMtime == last
                  && forall j :: 0 <= j < |s.receivers| ==> Heard(p.sent, j, i) == 0)
            && (pr.stat.StatOk? && pr.stat.mtime != last && pr.read.ReadFail? ==>
                  && p.observers[i].lastMtime == Unknown
                  && forall j :: 0 <= j < |s.receivers| ==> Heard(p.sent, j, i) == 0)
            && (pr.stat.StatOk? && pr.stat.mtime != last && pr.read.ReadOk? ==>
                  && p.observers[i].lastMtime == pr.stat.mtime
                  && (forall j :: 0 <= j < |s.receivers| ==> Heard(p.sent, j, i) == 1)
                  && (forall m1, m2 :: m1 in p.sent && m2 in p.sent && m1.observer == i && m2.observer == i ==>
                        m1.contents == m2.contents)
                  && forall m :: m in p.sent && m.observer == i ==> p.heap[m.contents].content == pr.read.bytes)
  {
  }

  /** Scenario of a changed file seen by a cycle, from one receiver's side:
      delivery appends to receiver `j`'s list exactly one message about
      observer `i` if `i` reloaded and none otherwise, and that message's
      buffer holds the bytes just read and is still live. */
  lemma {:induction false} ReceiverGetsEachReloadOnce(s: State, probes: seq<Probe>, i: nat, j: nat)
    requires |probes| <= |s.observers| && i < |probes| && j < |s.receivers|
    ensures var p := Cycle(s, probes);
            var added := ForReceiver(p.sent, j);
            && RunCycle(s, probes).receivers[j].queue == s.receivers[j].queue + added
            && About(added, i) == (if Decide(s.observers[i].lastMtime, probes[i].stat, probes[i].read).Reload? then 1 else 0)
            && forall m :: m in added && m.observer == i ==>
                 && m.contents < |p.heap| && !p.heap[m.contents].freed
                 && probes[i].read.ReadOk? && p.heap[m.contents].content == probes[i].read.bytes
  {
    var p := Cycle(s, probes);
    var added := ForReceiver(p.sent, j);
    assert Heard(p.sent, j, i) == About(added, i);
    forall m | m in added && m.observer == i
      ensures m.contents < |p.heap| && !p.heap[m.contents].freed
              && probes[i].read.ReadOk? && p.heap[m.contents].content == probes[i].read.bytes
    {
      ForReceiverIn(p.sent, j, m);
    }
  }

  /** When stat fails or reports the recorded time, the file is not read:
      the outcome does not depend on what a read would have returned. */
  lemma NoReadWithoutChange(last: Mtime, st: StatOutcome, rd1: ReadOutcome, rd2: ReadOutcome)
    requires !ReadAttempted(last, st)
    ensures Decide(last, st, rd1) == Decide(last, st, rd2)
    ensures !Decide(last, st, rd1).Reload?
  {
  }

  /** A new modification time is adopted only together with a successful
      read of the file, so a change is never recorded without its contents
      being delivered. */
  lemma CommitOnlyWithContents(last: Mtime, st: StatOutcome, rd: ReadOutcome)
    requires st.StatOk? && st.mtime != last && st.mtime != Unknown
    ensures After(last, Decide(last, st, rd)) == st.mtime <==> Decide(last, st, rd).Reload?
  {
  }

  /** After a failed stat or read, the next cycle in which the file is
      readable and carries any time other than zero reads and delivers it,
      even if that time equals the one seen before the failure. */
  lemma RetryAfterFailure(last: Mtime, st1: StatOutcome, rd1: ReadOutcome, m: Mtime, bytes: seq<byte>)
    requires Decide(last, st1, rd1).Invalidate? && m != Unknown
    ensures Decide(After(last, Decide(last, st1, rd1)), StatOk(m), ReadOk(bytes)) == Reload(m, bytes)
  {
  }

  /** The zero sentinel shares its value with a real time: a file stamped
      at the epoch is never read while `last_mtime` is zero, which includes
      every cycle after a failure and every cycle after a failed stat at
      creation. */
  lemma EpochFileNeverReloaded(rd: ReadOutcome)
    ensures Decide(Unknown, StatOk(Unknown), rd) == Skip
  {
  }

  /** The timestamp is the only change detector: new contents under an
      unchanged time are not read. */
  lemma SameTimeHidesNewContents(m: Mtime, bytes: seq<byte>)
    ensures Decide(m, StatOk(m), ReadOk(bytes)) == Skip
  {
  }

  // ---------------------------------------------------------------------
  // Fault isolation

  /** Whatever the file system answers for the other observers, observer
      `i` ends the cycle with the same `last_mtime`, every receiver hears
      about it the same number of times, and what it hears carries the same
      bytes. */
  lemma FaultIsolation(s: State, probes1: seq<Probe>, probes2: seq<Probe>, i: nat)
    requires |probes1| == |probes2| <= |s.observers| && i < |probes1|
    requires probes1[i] == probes2[i]
    ensures Cycle(s, probes1).observers[i] == Cycle(s, probes2).observers[i]
    ensures forall j :: 0 <= j < |s.receivers| ==> Heard(Cycle(s, probes1).sent, j, i) == Heard(Cycle(s, probes2).sent, j, i)
    ensures forall m1, m2 :: m1 in Cycle(s, probes1).sent && m2 in Cycle(s, probes2).sent && m1.observer == i && m2.observer == i ==>
              Cycle(s, probes1).heap[m1.contents].content == Cycle(s, probes2).heap[m2.contents].content
  {
  }

  // ---------------------------------------------------------------------
  // Registration and the `once` latch

  datatype Registration = NewObserver(filename: string, stat: StatOutcome) | NewContext(ctx: ContextId)

  function Apply(s: State, op: Registration): State
  {
    match op
    case NewObserver(f, st) => Create(s, f, st).state
    case NewContext(c) => ContextInit(s, c)
  }

  /** Registrations performed one after another, in any mix. */
  function Register(s: State, ops: seq<Registration>): State
    decreases |ops|
  {
    if |ops| == 0 then s else Register(Apply(s, ops[0]), ops[1..])
  }

  /** Number of observer creations among `ops`. */
  function Creations(ops: seq<Registration>): (n: nat)
    ensures n <= |ops|
  {
    if |ops| == 0 then 0 else (if ops[0].NewObserver? then 1 else 0) + Creations(ops[1..])
  }

  /** However many observers and contexts are registered, in whatever
      order, exactly one poller thread exists once any observer has been
      created, and none before. */
  lemma {:induction false} OnceLatch(s: State, ops: seq<Registration>)
    requires Registered(s)
    ensures Registered(Register(s, ops))
    ensures Register(s, ops).pollerThreads == (if s.onceTaken || Creations(ops) > 0 then 1 else 0)
    decreases |ops|
  {
    if |ops| > 0 {
      OnceLatch(Apply(s, ops[0]), ops[1..]);
    }
  }

  /** Both vectors only grow: registration appends one observer per
      creation and one receiver per context, and never alters earlier
      entries. */
  lemma {:induction false} AppendOnly(s: State, ops: seq<Registration>)
    ensures |Register(s, ops).observers| == |s.observers| + Creations(ops)
    ensures |Register(s, ops).receivers| == |s.receivers| + (|ops| - Creations(ops))
    ensures Register(s, ops).observers[..|s.observers|] == s.observers
    ensures Register(s, ops).receivers[..|s.receivers|] == s.receivers
    decreases |ops|
  {
    if |ops| > 0 {
      var s1 := Apply(s, ops[0]);
      AppendOnly(s1, ops[1..]);
      var r := Register(s1, ops[1..]);
      assert r.observers[..|s.observers|] == r.observers[..|s1.observers|][..|s.observers|];
      assert r.receivers[..|s.receivers|] == r.receivers[..|s1.receivers|][..|s.receivers|];
    }
  }

  /** From the initial state every registration keeps the refcount protocol
      balanced and every receiver's list in allocation order. */
  lemma {:induction false} RegisterKeepsProtocol(s: State, ops: seq<Registration>)
    requires Balanced(s) && InOrder(s)
    ensures Balanced(Register(s, ops)) && InOrder(Register(s, ops))
    decreases |ops|
  {
    if |ops| > 0 {
      var s1 := Apply(s, ops[0]);
      assert Balanced(s1) && InOrder(s1) by {
        if ops[0].NewContext? {
          forall id | 0 <= id < |s1.heap|
            ensures Pending(s1.receivers, id) == Pending(s.receivers, id)
          {
            PendingAppendEmpty(s.receivers, ops[0].ctx, id);
          }
        }
      }
      RegisterKeepsProtocol(s1, ops[1..]);
    }
  }

  lemma {:induction false} PendingAppendEmpty(rs: seq<Receiver>, ctx: ContextId, id: nat)
    ensures Pending(rs + [Receiver(ctx, [])], id) == Pending(rs, id)
    decreases |rs|
  {
    if |rs| > 0 {
      assert (rs + [Receiver(ctx, [])])[1..] == rs[1..] + [Receiver(ctx, [])];
      PendingAppendEmpty(rs[1..], ctx, id);
    } else {
      assert [Receiver(ctx, [])][1..] == [];
    }
  }

  lemma InitialState()
    ensures Balanced(Init()) && InOrder(Init()) && Registered(Init())
  {
  }
}
