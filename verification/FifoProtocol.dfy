/** Threads and condition variables of the FIFO (fifo.c): every interleaving of its critical
    sections, each from taking the mutex to releasing it or to waiting. */
module FifoProtocol {
  import opened FifoLists
  import opened Sequences

  type Tid = nat
  type Buf = nat

  /** `out` are the buffers in callers' hands; the other sets are the threads that wait on
      fifo_free_cond, fifo_notempty_cond and fifo_empty_cond. */
  datatype State = State(
    lists: Lists<Buf>,
    out: set<Buf>,
    waitingFree: set<Tid>,
    waitingNotEmpty: set<Tid>,
    waitingEmpty: set<Tid>)

  /** One critical section of thread t. A thread that was woken checks its condition again,
      which is the same step as entering. `woken` is the thread a signal wakes, if any waits. */
  datatype Label =
    | Acquire(t: Tid)          // takes a buffer, or returns NULL
    | AcquireWait(t: Tid)
    | Enqueue(t: Tid, b: Buf, woken: Tid)
    | Dequeue(t: Tid)          // takes a buffer, or returns NULL
    | DequeueWait(t: Tid)
    | Release(t: Tid, b: Buf, woken: Tid)
    | Drain(t: Tid)            // returns
    | DrainWait(t: Tid)
    | Halt(t: Tid)
    | Wake(t: Tid)             // timeout or spurious wakeup

  predicate Blocked(s: State, t: Tid) {
    t in s.waitingFree || t in s.waitingNotEmpty || t in s.waitingEmpty
  }

  predicate SignalsFree(s: State, l: Label) {
    l.Release? && s.lists.free == []
  }

  predicate SignalsNotEmpty(s: State, l: Label) {
    l.Enqueue? && !s.lists.halted && s.lists.queue == []
  }

  predicate Enabled(s: State, l: Label) {
    && (l.Wake? <==> Blocked(s, l.t))
    && (SignalsFree(s, l) ==> s.waitingFree == {} || l.woken in s.waitingFree)
    && (SignalsNotEmpty(s, l) ==> s.waitingNotEmpty == {} || l.woken in s.waitingNotEmpty)
    && match l
       case AcquireWait(_) => !s.lists.halted && s.lists.free == []
       case DequeueWait(_) => !s.lists.halted && s.lists.queue == []
       case DrainWait(_) => !s.lists.halted && s.lists.queue != []
       case Drain(_) => s.lists.halted || s.lists.queue == []
       case Enqueue(_, b, _) => b in s.out
       case Release(_, b, _) => b in s.out
       case _ => true
  }

  function Step(s: State, l: Label): State
    requires Enabled(s, l)
  {
    match l
    case Acquire(_) =>
      if s.lists.halted || s.lists.free == [] then s
      else s.(lists := Acquired(s.lists), out := s.out + {s.lists.free[0]})
    case AcquireWait(t) => s.(waitingFree := s.waitingFree + {t})
    case Enqueue(_, b, w) =>
      s.(lists := Enqueued(s.lists, b), out := s.out - {b},
         waitingNotEmpty := if SignalsNotEmpty(s, l) then s.waitingNotEmpty - {w} else s.waitingNotEmpty)
    case Dequeue(_) =>
      if s.lists.halted || s.lists.queue == [] then s
      else s.(lists := Dequeued(s.lists), out := s.out + {s.lists.queue[0]},
              waitingEmpty := if |s.lists.queue| == 1 then {} else s.waitingEmpty)
    case DequeueWait(t) => s.(waitingNotEmpty := s.waitingNotEmpty + {t})
    case Release(_, b, w) =>
      s.(lists := Released(s.lists, b), out := s.out - {b},
         waitingFree := if SignalsFree(s, l) then s.waitingFree - {w} else s.waitingFree)
    case Drain(_) => s
    case DrainWait(t) => s.(waitingEmpty := s.waitingEmpty + {t})
    case Halt(_) => s.(lists := Halted(s.lists), waitingFree := {}, waitingNotEmpty := {}, waitingEmpty := {})
    case Wake(t) =>
      s.(waitingFree := s.waitingFree - {t}, waitingNotEmpty := s.waitingNotEmpty - {t},
        waitingEmpty := s.waitingEmpty - {t})
  }

  // ---- Runs -------------------------------------------------------------------------------

  ghost predicate Init(s: State, pool: set<Buf>) {
    && Partition(s.lists, {}, pool) && s.lists.queue == [] && !s.lists.halted && s.out == {}
    && s.waitingFree == {} && s.waitingNotEmpty == {} && s.waitingEmpty == {}
  }

  predicate IsRun(s: State, run: seq<Label>)
    decreases |run|
  {
    run == [] || (Enabled(s, run[0]) && IsRun(Step(s, run[0]), run[1..]))
  }

  function After(s: State, run: seq<Label>): State
    requires IsRun(s, run)
    decreases |run|
  {
    if run == [] then s else After(Step(s, run[0]), run[1..])
  }

  /** Buffers are conserved, a halt is permanent, and a halted FIFO is empty. */
  ghost predicate Safe(s: State, pool: set<Buf>) {
    Partition(s.lists, s.out, pool) && (s.lists.halted ==> s.lists.queue == [])
  }

  lemma StepIsSafe(s: State, l: Label, pool: set<Buf>)
    requires Safe(s, pool) && Enabled(s, l)
    ensures Safe(Step(s, l), pool) && (s.lists.halted ==> Step(s, l).lists.halted)
  {
    hide Partition, NoDuplicates, Reversed;
    match l
    case Acquire(_) =>
      if s.lists.free != [] {
        PartitionAcquired(s.lists, s.out, pool);
      }
    case Dequeue(_) =>
      if s.lists.queue != [] {
        PartitionDequeued(s.lists, s.out, pool);
      }
    case Enqueue(_, b, _) => PartitionEnqueued(s.lists, s.out, pool, b);
    case Release(_, b, _) => PartitionReleased(s.lists, s.out, pool, b);
    case Halt(_) => PartitionHalted(s.lists, s.out, pool);
    case _ =>
  }

  /** In every interleaving of any number of threads, every buffer of the pool is at all times
      in exactly one of queue, freelist and a caller's hands, and a halt is permanent. */
  lemma {:induction false} RunsAreSafe(s: State, run: seq<Label>, pool: set<Buf>)
    requires Safe(s, pool) && IsRun(s, run)
    ensures Safe(After(s, run), pool) && (s.lists.halted ==> After(s, run).lists.halted)
    decreases |run|
  {
    hide Safe;
    if run != [] {
      StepIsSafe(s, run[0], pool);
      RunsAreSafe(Step(s, run[0]), run[1..], pool);
    }
  }

  // ---- Nobody is stuck ----------------------------------------------------------------------

  /** No thread is blocked on a condition while the thing it waits for holds. */
  predicate NobodyStuck(s: State) {
    && (s.waitingFree != {} ==> !s.lists.halted && s.lists.free == [])
    && (s.waitingNotEmpty != {} ==> !s.lists.halted && s.lists.queue == [])
    && (s.waitingEmpty != {} ==> !s.lists.halted && s.lists.queue != [])
  }

  /** A signal wakes one thread although more than one waits. */
  predicate WakesTooFew(s: State, l: Label) {
    || (SignalsFree(s, l) && s.waitingFree - {l.woken} != {})
    || (SignalsNotEmpty(s, l) && s.waitingNotEmpty - {l.woken} != {})
  }

  /** A step leaves somebody stuck exactly if it signals a condition on which two or more
      threads wait. */
  lemma StuckExactly(s: State, l: Label)
    requires NobodyStuck(s) && Enabled(s, l)
    ensures NobodyStuck(Step(s, l)) <==> !WakesTooFew(s, l)
  {
    var s' := Step(s, l);
    match l
    case AcquireWait(t) => assert t in s'.waitingFree;
    case DequeueWait(t) => assert t in s'.waitingNotEmpty;
    case DrainWait(t) => assert t in s'.waitingEmpty;
    case _ =>
  }

  /** Only thread p ever waits for a free buffer and only thread c for a queued one. */
  predicate OneProducerOneConsumer(run: seq<Label>, p: Tid, c: Tid) {
    forall l :: l in run ==> (l.AcquireWait? ==> l.t == p) && (l.DequeueWait? ==> l.t == c)
  }

  /** With one producer and one consumer nobody is ever stuck, although signals are sent only
      when a list stops being empty. Any number of threads may drain and halt. */
  lemma {:induction false} NobodyEverStuck(s: State, run: seq<Label>, p: Tid, c: Tid)
    requires NobodyStuck(s) && s.waitingFree <= {p} && s.waitingNotEmpty <= {c}
    requires IsRun(s, run) && OneProducerOneConsumer(run, p, c)
    ensures NobodyStuck(After(s, run))
    decreases |run|
  {
    if run != [] {
      assert run[0] in run;
      StuckExactly(s, run[0]);
      var s' := Step(s, run[0]);
      assert s'.waitingFree <= {p} && s'.waitingNotEmpty <= {c};
      NobodyEverStuck(s', run[1..], p, c);
    }
  }

  /** A step from s to s', then the rest of the run from there. */
  lemma OneStep(s: State, run: seq<Label>, k: nat, s': State)
    requires k < |run| && Enabled(s, run[k]) && Step(s, run[k]) == s'
    ensures IsRun(s', run[k + 1..]) ==> IsRun(s, run[k..]) && After(s, run[k..]) == After(s', run[k + 1..])
  {
    hide Enabled, Step;
    assert run[k..][0] == run[k] && run[k..][1..] == run[k + 1..];
  }

  /** Two producers that wait at the same time are not served by fifo_release: one of two
      released buffers stays on the freelist while thread 3 stays blocked. */
  lemma TwoProducersGetStuck() returns (s: State, run: seq<Label>)
    ensures Init(s, {0, 1}) && IsRun(s, run)
    ensures run == [Acquire(1), Acquire(1), AcquireWait(2), AcquireWait(3),
      Release(1, 0, 2), Release(1, 1, 2), Acquire(2)]
    ensures After(s, run).lists.free == [0] && After(s, run).waitingFree == {3}
  {
    hide IsRun, After;
    s := State(Lists([], [0, 1], false), {}, {}, {}, {});
    run := [Acquire(1), Acquire(1), AcquireWait(2), AcquireWait(3), Release(1, 0, 2), Release(1, 1, 2), Acquire(2)];
    var both := TwoWait(s, run);
    OneIsServed(both, run);
    assert run[0..] == run;
  }

  /** Thread 1 has both buffers, threads 2 and 3 wait. */
  lemma TwoWait(s: State, run: seq<Label>) returns (s4: State)
    requires s == State(Lists([], [0, 1], false), {}, {}, {}, {})
    requires |run| >= 4 && run[0] == run[1] == Acquire(1) && run[2] == AcquireWait(2) && run[3] == AcquireWait(3)
    ensures s4 == State(Lists([], [], false), {0, 1}, {2, 3}, {}, {})
    ensures IsRun(s4, run[4..]) ==> IsRun(s, run[0..]) && After(s, run[0..]) == After(s4, run[4..])
  {
    hide IsRun, After;
    var s1 := State(Lists([], [1], false), {0}, {}, {}, {});
    var s2 := State(Lists([], [], false), {0, 1}, {}, {}, {});
    var s3 := s2.(waitingFree := {2});
    s4 := s2.(waitingFree := {2, 3});
    OneStep(s, run, 0, s1);
    OneStep(s1, run, 1, s2);
    OneStep(s2, run, 2, s3);
    OneStep(s3, run, 3, s4);
  }

  /** Only the first release signals, and it wakes thread 2. */
  lemma OneIsServed(s4: State, run: seq<Label>)
    requires s4 == State(Lists([], [], false), {0, 1}, {2, 3}, {}, {})
    requires |run| == 7 && run[4] == Release(1, 0, 2) && run[5] == Release(1, 1, 2) && run[6] == Acquire(2)
    ensures IsRun(s4, run[4..])
    ensures After(s4, run[4..]) == State(Lists([], [0], false), {1}, {3}, {}, {})
  {
    hide IsRun, After;
    var s5 := State(Lists([], [0], false), {1}, {3}, {}, {});
    var s6 := State(Lists([], [1, 0], false), {}, {3}, {}, {});
    var s7 := State(Lists([], [0], false), {1}, {3}, {}, {});
    OneStep(s4, run, 4, s5);
    OneStep(s5, run, 5, s6);
    OneStep(s6, run, 6, s7);
    NoSteps(s7, run[7..]);
  }

  lemma NoSteps(s: State, run: seq<Label>)
    requires run == []
    ensures IsRun(s, run) && After(s, run) == s
  {
  }
}
