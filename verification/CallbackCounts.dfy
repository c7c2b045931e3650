/**
 What the counters of the access recorder count: in every run, each is the number of callbacks of its kind that
 all threads together have made, whichever branch and path the callbacks took.
 */
module CallbackCounts {
  import opened TypeDatabase
  import opened AllocMap
  import opened AllocationTracking

  /**
   The first six count callbacks whatever the map held. Reuses and frees count what callbacks found in it; the live
   heap is what has been allocated and not freed, by callbacks or, in the last one, by the counters themselves.
   */
  datatype Metric =
    | ZeroAllocs | NullAllocs | NullAndZeroAllocs | HeapAllocs | GlobalAllocs | StackAllocs
    | AddrReuses | HeapFrees | LiveHeap | HeapBalance

  /** The callbacks a metric is about. Null and empty allocations are heap, stack or global allocations as well. */
  predicate Qualifies(k: Metric, op: Op) {
    op.Alloc? &&
    match k
    case ZeroAllocs => op.count == 0
    case NullAllocs => op.addr == NULL && op.count > 0
    case NullAndZeroAllocs => op.addr == NULL && op.count == 0
    case HeapAllocs => op.kind == Heap
    case GlobalAllocs => op.kind == Global
    case StackAllocs => op.kind == Stack
    case LiveHeap => op.kind == Heap
    case _ => false
  }

  function Count(k: Metric, log: seq<Op>): nat {
    if log == [] then 0 else Count(k, log[..|log| - 1]) + if Qualifies(k, log[|log| - 1]) then 1 else 0
  }

  /** The part of a metric that the shared counters hold, and the part of one thread. */
  function SharedCount(k: Metric, sh: Shared): int {
    match k
    case ZeroAllocs => sh.zeroAlloc
    case NullAllocs => sh.nullAlloc
    case NullAndZeroAllocs => sh.nullAndZeroAlloc
    case HeapAllocs => sh.heapAllocs
    case GlobalAllocs => sh.globalAllocs
    case StackAllocs => 0
    case AddrReuses => sh.addrReuses
    case HeapFrees => sh.heapAllocsFree
    case LiveHeap => sh.curHeapAllocs
    case HeapBalance => sh.curHeapAllocs - sh.heapAllocs + sh.heapAllocsFree
  }

  /** The part of a metric that comes from what callbacks found in the map. */
  function Found(k: Metric, h: History): int {
    match k
    case AddrReuses => h.overwritten
    case HeapFrees => h.freed
    case LiveHeap => 0 - h.freed
    case _ => 0
  }

  function ThreadCount(k: Metric, th: Thread): int {
    if k == StackAllocs then th.stackAllocs else 0
  }

  /** The callback in progress has been entered but not counted yet. */
  predicate Pending(k: Metric, pc: Pc) {
    pc.At? && Qualifies(k, pc.op) &&
    match k
    case ZeroAllocs => pc.point.Begin?
    case NullAllocs => pc.point.Begin? || pc.point.CountNull?
    case NullAndZeroAllocs => pc.point.Begin? || pc.point.CountNullZero?
    case LiveHeap => !pc.point.LoadCur? && !pc.point.LoadMax? && !pc.point.CompareExchange? && !pc.point.CountHeap?
    case _ => true
  }

  /** What the callback in progress still has to add to the metric. */
  function Owed(k: Metric, pc: Pc): int {
    (if Pending(k, pc) then 1 else 0) +
    if pc.Idle? then 0 else
      match k
      case AddrReuses => if pc.point.CountReuse? then 1 else 0
      case HeapFrees => if pc.point.CountHeapFree? then 1 else 0
      case LiveHeap => if pc.point.CountHeapFree? || pc.point.DecHeap? then -1 else 0
      case HeapBalance =>
        if pc.point.LoadCur? || pc.point.LoadMax? || pc.point.CompareExchange? || pc.point.CountHeap? || pc.point.DecHeap?
        then -1 else 0
      case _ => 0
  }

  /** The null branches are only taken by null allocations. */
  predicate BranchFits(pc: Pc) {
    pc.At? ==>
      && PointOf(pc.op, pc.point) && StatusTagged(pc.point)
      && (pc.point.CountNull? ==> pc.op.addr == NULL && pc.op.count > 0)
      && (pc.point.CountNullZero? ==> pc.op.addr == NULL && pc.op.count == 0)
  }

  /** What one thread still owes or has contributed to a metric. */
  function Tally(k: Metric, th: Thread, log: seq<Op>): int {
    Count(k, log) - Owed(k, th.pc) - ThreadCount(k, th)
  }

  function Tallies(k: Metric, threads: seq<Thread>, logs: seq<seq<Op>>): seq<int>
    requires |threads| == |logs|
  {
    seq(|threads|, t requires 0 <= t < |threads| => Tally(k, threads[t], logs[t]))
  }

  function Sum(vals: seq<int>): int {
    if vals == [] then 0 else Sum(vals[..|vals| - 1]) + vals[|vals| - 1]
  }

  function TotalTally(k: Metric, threads: seq<Thread>, logs: seq<seq<Op>>): int
    requires |threads| == |logs|
  {
    Sum(Tallies(k, threads, logs))
  }

  lemma {:induction false} SumOfUpdate(vals: seq<int>, t: nat, v: int)
    requires t < |vals|
    ensures Sum(vals[t := v]) == Sum(vals) - vals[t] + v
    decreases |vals|
  {
    var n := |vals| - 1;
    if t < n {
      SumOfUpdate(vals[..n], t, v);
      assert vals[t := v][..n] == vals[..n][t := v];
    } else {
      assert vals[t := v][..n] == vals[..n];
    }
  }

  lemma {:induction false} SumOfZeros(vals: seq<int>)
    requires forall i :: 0 <= i < |vals| ==> vals[i] == 0
    ensures Sum(vals) == 0
    decreases |vals|
  {
    if vals != [] {
      SumOfZeros(vals[..|vals| - 1]);
    }
  }

  lemma TallyOfUpdate(k: Metric, threads: seq<Thread>, logs: seq<seq<Op>>, t: nat, th: Thread, log: seq<Op>)
    requires t < |threads| == |logs|
    ensures TotalTally(k, threads[t := th], logs[t := log])
         == TotalTally(k, threads, logs) - Tally(k, threads[t], logs[t]) + Tally(k, th, log)
  {
    SumOfUpdate(Tallies(k, threads, logs), t, Tally(k, th, log));
    assert Tallies(k, threads[t := th], logs[t := log]) == Tallies(k, threads, logs)[t := Tally(k, th, log)];
  }

  /** Between two states, the metric has grown by what the callback owed and by what it found. */
  ghost predicate Counts(sh: Shared, th: Thread, sh': Shared, th': Thread, k: Metric) {
    SharedCount(k, sh') + ThreadCount(k, th') - SharedCount(k, sh) - ThreadCount(k, th)
    == Owed(k, th.pc) - Owed(k, th'.pc) + Finds(k, sh, th)
  }

  /** What the next step finds in the map. */
  function Finds(k: Metric, sh: Shared, th: Thread): int {
    match k
    case AddrReuses => if Overwrites(sh, th) then 1 else 0
    case HeapFrees => if FreesEntry(sh, th) then 1 else 0
    case LiveHeap => if FreesEntry(sh, th) then -1 else 0
    case _ => 0
  }

  lemma AllocStepFits(db: Database, sh: Shared, th: Thread, spurious: bool)
    requires th.pc.At? && th.pc.op.Alloc? && BranchFits(th.pc)
    ensures BranchFits(AllocStep(db, sh, th, spurious).1.pc)
  {
  }

  predicate OfHeap(k: Metric) {
    k == LiveHeap || k == HeapBalance
  }

  lemma AllocStepCountsHeap(db: Database, sh: Shared, th: Thread, spurious: bool, k: Metric)
    requires th.pc.At? && th.pc.op.Alloc? && BranchFits(th.pc) && OfHeap(k)
    ensures var (sh', th') := AllocStep(db, sh, th, spurious); Counts(sh, th, sh', th', k)
  {
  }

  lemma AllocStepCountsFound(db: Database, sh: Shared, th: Thread, spurious: bool, k: Metric)
    requires th.pc.At? && th.pc.op.Alloc? && BranchFits(th.pc) && (k == AddrReuses || k == HeapFrees)
    ensures var (sh', th') := AllocStep(db, sh, th, spurious); Counts(sh, th, sh', th', k)
  {
  }

  lemma AllocStepCountsCalls(db: Database, sh: Shared, th: Thread, spurious: bool, k: Metric)
    requires th.pc.At? && th.pc.op.Alloc? && BranchFits(th.pc)
    requires !OfHeap(k) && k != AddrReuses && k != HeapFrees
    ensures var (sh', th') := AllocStep(db, sh, th, spurious); Counts(sh, th, sh', th', k)
  {
  }

  lemma AllocStepCounts(db: Database, sh: Shared, th: Thread, spurious: bool, k: Metric)
    requires th.pc.At? && th.pc.op.Alloc? && BranchFits(th.pc)
    ensures var (sh', th') := AllocStep(db, sh, th, spurious); Counts(sh, th, sh', th', k)
  {
    if OfHeap(k) {
      AllocStepCountsHeap(db, sh, th, spurious, k);
    } else if k == AddrReuses || k == HeapFrees {
      AllocStepCountsFound(db, sh, th, spurious, k);
    } else {
      AllocStepCountsCalls(db, sh, th, spurious, k);
    }
  }

  lemma FreeStepCounts(sh: Shared, th: Thread, k: Metric)
    requires th.pc.At? && th.pc.op.Free? && BranchFits(th.pc)
    ensures var (sh', th') := FreeStep(sh, th); BranchFits(th'.pc) && Counts(sh, th, sh', th', k)
  {
  }

  /** A step counts a callback exactly when it stops owing it. */
  lemma StepCounts(db: Database, sh: Shared, th: Thread, spurious: bool, k: Metric)
    requires th.pc.At? && BranchFits(th.pc)
    ensures var (sh', th') := MicroStep(db, sh, th, spurious); BranchFits(th'.pc) && Counts(sh, th, sh', th', k)
  {
    match th.pc.op
    case Alloc(_, _, _, _, _) =>
      AllocStepFits(db, sh, th, spurious);
      AllocStepCounts(db, sh, th, spurious, k);
    case Free(_) => FreeStepCounts(sh, th, k);
    case LeaveScope(_) =>
  }

  lemma EntryPends(op: Op, log: seq<Op>, th: Thread, k: Metric)
    requires th.pc.Idle?
    ensures BranchFits(At(op, Begin))
    ensures Tally(k, th.(pc := At(op, Begin)), log + [op]) == Tally(k, th, log)
  {
    assert (log + [op])[..|log|] == log;
  }

  ghost predicate BranchesFit(s: System) {
    && |s.threads| == |s.history.logs| == |s.history.stackPeaks|
    && forall t :: 0 <= t < |s.threads| ==> BranchFits(s.threads[t].pc)
  }

  /** The metric is what was found in the map and what the threads have counted. */
  ghost predicate MetricInv(k: Metric, s: System) {
    BranchesFit(s) && SharedCount(k, s.shared) == Found(k, s.history) + TotalTally(k, s.threads, s.history.logs)
  }

  /** The stack counter of a thread is kept up by its own callbacks. */
  ghost predicate StackCounted(th: Thread, log: seq<Op>) {
    Tally(StackAllocs, th, log) == 0
  }

  ghost predicate StacksCounted(s: System) {
    BranchesFit(s) && forall t :: 0 <= t < |s.threads| ==> StackCounted(s.threads[t], s.history.logs[t])
  }

  predicate AtStart(th: Thread, log: seq<Op>) {
    th == THREAD_INIT && log == []
  }

  lemma NothingOwed(k: Metric, th: Thread, log: seq<Op>)
    requires AtStart(th, log)
    ensures Tally(k, th, log) == 0
  {
  }

  lemma NothingTallied(k: Metric, threads: seq<Thread>, logs: seq<seq<Op>>)
    requires |threads| == |logs| && forall t :: 0 <= t < |threads| ==> AtStart(threads[t], logs[t])
    ensures TotalTally(k, threads, logs) == 0
  {
    var tallies := Tallies(k, threads, logs);
    forall t | 0 <= t < |tallies| ensures tallies[t] == 0 {
      NothingOwed(k, threads[t], logs[t]);
    }
    SumOfZeros(tallies);
  }

  lemma StartIsAtStart(n: nat, t: nat)
    requires t < n
    ensures AtStart(Start(n).threads[t], Start(n).history.logs[t])
  {
  }

  lemma StartFits(n: nat)
    ensures BranchesFit(Start(n))
  {
    forall t | 0 <= t < n ensures BranchFits(Start(n).threads[t].pc) {
      StartIsAtStart(n, t);
    }
  }

  lemma StartMetric(n: nat, k: Metric)
    ensures MetricInv(k, Start(n))
  {
    StartFits(n);
    forall t | 0 <= t < n ensures AtStart(Start(n).threads[t], Start(n).history.logs[t]) {
      StartIsAtStart(n, t);
    }
    NothingTallied(k, Start(n).threads, Start(n).history.logs);
  }

  lemma StartStacks(n: nat)
    ensures StacksCounted(Start(n))
  {
    StartFits(n);
    forall t | 0 <= t < n ensures StackCounted(Start(n).threads[t], Start(n).history.logs[t]) {
      StartIsAtStart(n, t);
      NothingOwed(StackAllocs, Start(n).threads[t], Start(n).history.logs[t]);
    }
  }

  lemma ActionFits(db: Database, s: System, a: Action)
    requires Enabled(s, a) && BranchesFit(s)
    ensures BranchesFit(Apply(db, s, a))
  {
    if a.Advance? {
      StepCounts(db, s.shared, s.threads[a.t], a.spurious, ZeroAllocs);
    }
  }

  /** What a step does to a metric, by the thread that takes it. */
  ghost predicate ChangesMetric(k: Metric, s: System, s': System, t: nat)
    requires t < |s.threads| == |s.history.logs| && t < |s'.threads| == |s'.history.logs|
  {
    SharedCount(k, s'.shared) - SharedCount(k, s.shared)
    == Found(k, s'.history) - Found(k, s.history)
       + Tally(k, s'.threads[t], s'.history.logs[t]) - Tally(k, s.threads[t], s.history.logs[t])
  }

  lemma EnterCounts(db: Database, s: System, a: Action, k: Metric)
    requires Enabled(s, a) && a.Enter?
    ensures ChangesMetric(k, s, Apply(db, s, a), a.t)
  {
    EntryPends(a.op, s.history.logs[a.t], s.threads[a.t], k);
  }

  lemma AdvanceCounts(db: Database, s: System, a: Action, k: Metric)
    requires Enabled(s, a) && a.Advance? && BranchFits(s.threads[a.t].pc)
    ensures ChangesMetric(k, s, Apply(db, s, a), a.t)
  {
    StepCounts(db, s.shared, s.threads[a.t], a.spurious, k);
    assert Found(k, Apply(db, s, a).history) - Found(k, s.history) == Finds(k, s.shared, s.threads[a.t]);
  }

  lemma ActionCounts(db: Database, s: System, a: Action, k: Metric)
    requires Enabled(s, a) && BranchesFit(s)
    ensures BranchesFit(Apply(db, s, a)) && ChangesMetric(k, s, Apply(db, s, a), a.t)
  {
    ActionFits(db, s, a);
    if a.Enter? {
      EnterCounts(db, s, a, k);
    } else {
      AdvanceCounts(db, s, a, k);
    }
  }

  lemma ApplyKeepsMetric(db: Database, s: System, a: Action, k: Metric)
    requires Enabled(s, a) && MetricInv(k, s)
    ensures MetricInv(k, Apply(db, s, a))
  {
    var s', t := Apply(db, s, a), a.t;
    ActionCounts(db, s, a, k);
    TallyOfUpdate(k, s.threads, s.history.logs, t, s'.threads[t], s'.history.logs[t]);
    assert s.history.logs[t := s'.history.logs[t]] == s'.history.logs;
  }

  lemma ApplyKeepsStacks(db: Database, s: System, a: Action)
    requires Enabled(s, a) && StacksCounted(s)
    ensures StacksCounted(Apply(db, s, a))
  {
    ActionCounts(db, s, a, StackAllocs);
    assert StackCounted(s.threads[a.t], s.history.logs[a.t]);
  }

  lemma {:induction false} RunKeepsMetric(db: Database, n: nat, actions: seq<Action>, k: Metric)
    requires Outcome(db, n, actions).Some?
    ensures MetricInv(k, Outcome(db, n, actions).value)
    decreases |actions|
  {
    if actions == [] {
      StartMetric(n, k);
    } else {
      RunKeepsMetric(db, n, actions[..|actions| - 1], k);
      ApplyKeepsMetric(db, Outcome(db, n, actions[..|actions| - 1]).value, actions[|actions| - 1], k);
    }
  }

  lemma {:induction false} RunKeepsStacks(db: Database, n: nat, actions: seq<Action>)
    requires Outcome(db, n, actions).Some?
    ensures StacksCounted(Outcome(db, n, actions).value)
    decreases |actions|
  {
    if actions == [] {
      StartStacks(n);
    } else {
      RunKeepsStacks(db, n, actions[..|actions| - 1]);
      ApplyKeepsStacks(db, Outcome(db, n, actions[..|actions| - 1]).value, actions[|actions| - 1]);
    }
  }

  function CountAll(k: Metric, logs: seq<seq<Op>>): nat {
    if logs == [] then 0 else CountAll(k, logs[..|logs| - 1]) + Count(k, logs[|logs| - 1])
  }

  lemma {:induction false} SumOfCounts(k: Metric, vals: seq<int>, logs: seq<seq<Op>>)
    requires |vals| == |logs| && forall t :: 0 <= t < |vals| ==> vals[t] == Count(k, logs[t])
    ensures Sum(vals) == CountAll(k, logs)
    decreases |vals|
  {
    if vals != [] {
      var n := |vals| - 1;
      SumOfCounts(k, vals[..n], logs[..n]);
    }
  }

  lemma RestingTally(k: Metric, threads: seq<Thread>, logs: seq<seq<Op>>)
    requires |threads| == |logs| && k != StackAllocs
    requires forall t :: 0 <= t < |threads| ==> threads[t].pc.Idle?
    ensures TotalTally(k, threads, logs) == CountAll(k, logs)
  {
    var tallies := Tallies(k, threads, logs);
    forall t | 0 <= t < |tallies| ensures tallies[t] == Count(k, logs[t]) {
    }
    SumOfCounts(k, tallies, logs);
  }

  /**
   Whenever no callback is running, each shared counter is the number of callbacks of its kind in all threads, and
   each thread's stack counter the number of its own stack callbacks; skipped and null allocations included.
   */
  lemma CountersTold(db: Database, n: nat, actions: seq<Action>, k: Metric)
    requires Outcome(db, n, actions).Some? && Outcome(db, n, actions).value.Quiescent()
    ensures var s := Outcome(db, n, actions).value;
            && (k != StackAllocs ==> SharedCount(k, s.shared) == Found(k, s.history) + CountAll(k, s.history.logs))
            && |s.threads| == |s.history.logs|
            && forall t :: 0 <= t < |s.threads| ==> s.threads[t].stackAllocs == Count(StackAllocs, s.history.logs[t])
  {
    RunKeepsMetric(db, n, actions, k);
    RunKeepsStacks(db, n, actions);
    var s := Outcome(db, n, actions).value;
    if k != StackAllocs {
      RestingTally(k, s.threads, s.history.logs);
    }
    forall t | 0 <= t < |s.threads| ensures s.threads[t].stackAllocs == Count(StackAllocs, s.history.logs[t]) {
      assert StackCounted(s.threads[t], s.history.logs[t]);
    }
  }

  lemma {:induction false} NothingCounted(k: Metric, logs: seq<seq<Op>>)
    requires k == AddrReuses || k == HeapFrees || k == HeapBalance
    ensures CountAll(k, logs) == 0
    decreases |logs|
  {
    if logs != [] {
      NothingCounted(k, logs[..|logs| - 1]);
      NoneQualifies(k, logs[|logs| - 1]);
    }
  }

  lemma {:induction false} NoneQualifies(k: Metric, log: seq<Op>)
    requires k == AddrReuses || k == HeapFrees || k == HeapBalance
    ensures Count(k, log) == 0
    decreases |log|
  {
    if log != [] {
      NoneQualifies(k, log[..|log| - 1]);
    }
  }

  /**
   Whenever no callback is running: the reuses are the overwritten entries and the frees the entries that frees have
   removed; the current heap count is the heap callbacks of all threads minus those frees, which is what the two
   counters say as well.
   */
  lemma LiveHeapTold(db: Database, n: nat, actions: seq<Action>)
    requires Outcome(db, n, actions).Some? && Outcome(db, n, actions).value.Quiescent()
    ensures var s := Outcome(db, n, actions).value;
            && s.shared.addrReuses == s.history.overwritten && s.shared.heapAllocsFree == s.history.freed
            && s.shared.curHeapAllocs == CountAll(LiveHeap, s.history.logs) - s.history.freed
            && s.shared.curHeapAllocs == s.shared.heapAllocs - s.shared.heapAllocsFree
  {
    var logs := Outcome(db, n, actions).value.history.logs;
    CountersTold(db, n, actions, AddrReuses);
    CountersTold(db, n, actions, HeapFrees);
    CountersTold(db, n, actions, LiveHeap);
    CountersTold(db, n, actions, HeapBalance);
    NothingCounted(AddrReuses, logs);
    NothingCounted(HeapFrees, logs);
    NothingCounted(HeapBalance, logs);
  }

  /** The thread is between the two steps of counting a heap allocation or a free. */
  predicate InBetween(th: Thread) {
    Owed(HeapBalance, th.pc) != 0
  }

  function CountInBetween(threads: seq<Thread>): nat {
    if threads == [] then 0 else
      CountInBetween(threads[..|threads| - 1]) + if InBetween(threads[|threads| - 1]) then 1 else 0
  }

  lemma {:induction false} SumOfOwed(vals: seq<int>, threads: seq<Thread>)
    requires |vals| == |threads| && forall t :: 0 <= t < |vals| ==> vals[t] == if InBetween(threads[t]) then 1 else 0
    ensures Sum(vals) == CountInBetween(threads)
    decreases |vals|
  {
    if vals != [] {
      var n := |vals| - 1;
      SumOfOwed(vals[..n], threads[..n]);
    }
  }

  lemma BalanceOwed(threads: seq<Thread>, logs: seq<seq<Op>>)
    requires |threads| == |logs|
    ensures TotalTally(HeapBalance, threads, logs) == CountInBetween(threads)
  {
    var tallies := Tallies(HeapBalance, threads, logs);
    forall t | 0 <= t < |tallies| ensures tallies[t] == if InBetween(threads[t]) then 1 else 0 {
      NoneQualifies(HeapBalance, logs[t]);
    }
    SumOfOwed(tallies, threads);
  }

  /** In every state of every run the current heap count is allocations minus frees, but for callbacks in between. */
  lemma LiveHeapBalances(db: Database, n: nat, actions: seq<Action>)
    requires Outcome(db, n, actions).Some?
    ensures var s := Outcome(db, n, actions).value;
            s.shared.curHeapAllocs == s.shared.heapAllocs - s.shared.heapAllocsFree + CountInBetween(s.threads)
  {
    RunKeepsMetric(db, n, actions, HeapBalance);
    var s := Outcome(db, n, actions).value;
    BalanceOwed(s.threads, s.history.logs);
  }
}
