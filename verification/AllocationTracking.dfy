/**
 The runtime callbacks of lib/runtime/AllocationTracking.cpp as a machine of atomic steps: a locked map and
 atomic counters shared by all threads, and per thread a stack of addresses with its own counters.
 */
module AllocationTracking {
  import opened Wrappers
  import opened TypeDatabase
  import opened AllocMap

  /** The flags of AllocState; a status is a set of flags and is compared as a whole. */
  datatype AllocState = NO_INIT | STATUS_OK | ADDR_SKIPPED | NULL_PTR | ZERO_COUNT | NULL_ZERO | ADDR_REUSE | UNKNOWN_ID

  type Status = set<AllocState>

  datatype AllocKind = Heap | Stack | Global

  /** A callback with its arguments. */
  datatype Op =
    | Alloc(kind: AllocKind, addr: Addr, typeId: int, count: nat, retAddr: Addr)
    | Free(ptr: Addr)
    | LeaveScope(allocaCount: nat)

  /** Where a thread stands inside a callback; each point is left by one atomic step. */
  datatype Point =
    | Begin
    | CountNullZero(status: Status)
    | CountNull(status: Status)
    | PutEntry(status: Status)
    | CountReuse(status: Status)
    | Returned(status: Status)
    | LoadCur
    | LoadMax(newVal: int)
    | CompareExchange(prevMax: int, newVal: int)
    | CountHeap
    | CountStack
    | CountHeapFree
    | DecHeap
    | EraseStack(n: nat)
    | DecStack(n: nat)

  datatype Pc = Idle | At(op: Op, point: Point)

  /** State that all threads share. */
  datatype Shared = Shared(
    entries: AllocEntries,
    heapAllocs: int, heapAllocsFree: int, globalAllocs: int,
    curHeapAllocs: int, maxHeapAllocs: int,
    addrReuses: int, nullAlloc: int, zeroAlloc: int, nullAndZeroAlloc: int)

  /** State of one thread: its position, its address stack and its recorder. */
  datatype Thread = Thread(
    pc: Pc,
    stackVars: seq<Addr>,
    curStackAllocs: int, maxStackAllocs: int, stackAllocs: int, stackAllocsFree: int)

  const SHARED_INIT := Shared(map[], 0, 0, 0, 0, 0, 0, 0, 0, 0)
  const THREAD_INIT := Thread(Idle, [], 0, 0, 0, 0)

  function Max(a: int, b: int): int { if a < b then b else a }

  function Min(a: int, b: int): int { if a < b then a else b }

  // ----- One atomic step -----

  function GoTo(th: Thread, point: Point): Thread
    requires th.pc.At?
  {
    th.(pc := At(th.pc.op, point))
  }

  /** The steps of doAlloc and of what follows it. */
  function AllocStep(db: Database, sh: Shared, th: Thread, spurious: bool): (Shared, Thread)
    requires th.pc.At? && th.pc.op.Alloc?
  {
    var Alloc(kind, addr, typeId, count, retAddr) := th.pc.op;
    match th.pc.point
    case Begin =>
      var status := if db.IsValid(typeId) then {NO_INIT} else {NO_INIT} + {UNKNOWN_ID};
      if count == 0 then
        (sh.(zeroAlloc := sh.zeroAlloc + 1),
         GoTo(th, if addr == NULL then CountNullZero(status + {ZERO_COUNT}) else PutEntry(status + {ZERO_COUNT})))
      else
        (sh, GoTo(th, if addr == NULL then CountNull(status) else PutEntry(status)))
    case CountNullZero(status) =>
      (sh.(nullAndZeroAlloc := sh.nullAndZeroAlloc + 1), GoTo(th, Returned(status + {NULL_ZERO, ADDR_SKIPPED})))
    case CountNull(status) =>
      (sh.(nullAlloc := sh.nullAlloc + 1), GoTo(th, Returned(status + {NULL_PTR, ADDR_SKIPPED})))
    case PutEntry(status) =>
      var overridden := addr in sh.entries && sh.entries[addr].typeId != -1;
      (sh.(entries := sh.entries[addr := PointerInfo(typeId, count, retAddr)]),
       GoTo(th, if overridden then CountReuse(status) else Returned(status + {STATUS_OK})))
    case CountReuse(status) =>
      (sh.(addrReuses := sh.addrReuses + 1), GoTo(th, Returned(status + {ADDR_REUSE} + {STATUS_OK})))
    case Returned(status) =>
      if status == {ADDR_SKIPPED} then (sh, th.(pc := Idle))
      else
        (match kind
         case Heap => (sh.(curHeapAllocs := sh.curHeapAllocs + 1), GoTo(th, LoadCur))
         case Stack => (sh, GoTo(th.(stackVars := th.stackVars + [addr]), CountStack))
         case Global => (sh.(globalAllocs := sh.globalAllocs + 1), th.(pc := Idle)))
    case LoadCur => (sh, GoTo(th, LoadMax(sh.curHeapAllocs)))
    case LoadMax(newVal) => (sh, GoTo(th, CompareExchange(sh.maxHeapAllocs, newVal)))
    case CompareExchange(prevMax, newVal) =>
      if prevMax >= newVal then (sh, GoTo(th, CountHeap))
      else if sh.maxHeapAllocs == prevMax && !spurious then (sh.(maxHeapAllocs := newVal), GoTo(th, CountHeap))
      else (sh, GoTo(th, CompareExchange(sh.maxHeapAllocs, newVal)))
    case CountHeap => (sh.(heapAllocs := sh.heapAllocs + 1), th.(pc := Idle))
    case CountStack =>
      (sh, th.(pc := Idle, curStackAllocs := th.curStackAllocs + 1, stackAllocs := th.stackAllocs + 1))
    case _ => (sh, th.(pc := Idle))
  }

  function FreeStep(sh: Shared, th: Thread): (Shared, Thread)
    requires th.pc.At? && th.pc.op.Free?
  {
    match th.pc.point
    case Begin =>
      if th.pc.op.ptr == NULL || th.pc.op.ptr !in sh.entries then (sh, th.(pc := Idle))
      else (sh.(entries := sh.entries - {th.pc.op.ptr}), GoTo(th, CountHeapFree))
    case CountHeapFree => (sh.(heapAllocsFree := sh.heapAllocsFree + 1), GoTo(th, DecHeap))
    case DecHeap => (sh.(curHeapAllocs := sh.curHeapAllocs - 1), th.(pc := Idle))
    case _ => (sh, th.(pc := Idle))
  }

  /** How many of the addresses, removed one after the other, have an entry. */
  function RemovedCount(m: AllocEntries, addrs: seq<Addr>): nat {
    if addrs == [] then 0
    else
      var init, last := addrs[..|addrs| - 1], addrs[|addrs| - 1];
      RemovedCount(m, init) + if last in Erased(m, init) then 1 else 0
  }

  lemma {:induction false} RemovedCountIsDifference(m: AllocEntries, addrs: seq<Addr>)
    ensures RemovedCount(m, addrs) == |m| - |Erased(m, addrs)|
    decreases |addrs|
  {
    if addrs != [] {
      var init, last := addrs[..|addrs| - 1], addrs[|addrs| - 1];
      RemovedCountIsDifference(m, init);
      if last in Erased(m, init) {
        EraseSize(Erased(m, init), last);
      } else {
        assert Erased(m, init) - {last} == Erased(m, init);
      }
    }
  }

  /** The last `n` addresses of the stack. */
  function Top(stackVars: seq<Addr>, n: nat): seq<Addr>
    requires n <= |stackVars|
  {
    stackVars[|stackVars| - n..]
  }

  function Rest(stackVars: seq<Addr>, n: nat): seq<Addr>
    requires n <= |stackVars|
  {
    stackVars[..|stackVars| - n]
  }

  function LeaveStep(sh: Shared, th: Thread): (Shared, Thread)
    requires th.pc.At? && th.pc.op.LeaveScope?
  {
    match th.pc.point
    case Begin =>
      var n := Min(th.pc.op.allocaCount, |th.stackVars|);
      // The range is removed, and each removed entry counted, under one lock.
      var entries := Erased(sh.entries, Top(th.stackVars, n));
      (sh.(entries := entries),
       GoTo(th.(stackAllocsFree := th.stackAllocsFree + RemovedCount(sh.entries, Top(th.stackVars, n))), EraseStack(n)))
    case EraseStack(n) =>
      (sh, GoTo(th.(stackVars := if n <= |th.stackVars| then Rest(th.stackVars, n) else []), DecStack(n)))
    case DecStack(n) =>
      (sh, th.(pc := Idle,
               maxStackAllocs := Max(th.maxStackAllocs, th.curStackAllocs),
               curStackAllocs := th.curStackAllocs - n))
    case _ => (sh, th.(pc := Idle))
  }

  function MicroStep(db: Database, sh: Shared, th: Thread, spurious: bool): (Shared, Thread)
    requires th.pc.At?
  {
    match th.pc.op
    case Alloc(_, _, _, _, _) => AllocStep(db, sh, th, spurious)
    case Free(_) => FreeStep(sh, th)
    case LeaveScope(_) => LeaveStep(sh, th)
  }

  // ----- What a callback does to the stack of its own thread -----

  /** A stack callback pushes whatever its address; leaving a scope pops what there is, at most its argument. */
  function StackEffect(op: Op, stack: seq<Addr>): seq<Addr> {
    match op
    case Alloc(kind, addr, _, _, _) => if kind == Stack then stack + [addr] else stack
    case Free(_) => stack
    case LeaveScope(n) => Rest(stack, Min(n, |stack|))
  }

  function StackAfter(ops: seq<Op>, stack: seq<Addr>): seq<Addr> {
    if ops == [] then stack else StackEffect(ops[|ops| - 1], StackAfter(ops[..|ops| - 1], stack))
  }

  lemma {:induction false} StackAfterAppend(a: seq<Op>, b: seq<Op>, stack: seq<Addr>)
    ensures StackAfter(a + b, stack) == StackAfter(b, StackAfter(a, stack))
    decreases |b|
  {
    if b == [] {
      assert a + b == a;
    } else {
      assert (a + b)[..|a + b| - 1] == a + b[..|b| - 1];
      StackAfterAppend(a, b[..|b| - 1], stack);
    }
  }

  /** Whether the thread's stack already shows the effect of the callback it is in. */
  predicate StackDone(pc: Pc) {
    pc.Idle? || match pc.op
                case Alloc(kind, _, _, _, _) => kind == Stack && pc.point.CountStack?
                case Free(_) => false
                case LeaveScope(_) => pc.point.DecStack?
  }

  /** doAlloc's status always has the NO_INIT flag, so the comparison with ADDR_SKIPPED never skips anything. */
  predicate StatusTagged(point: Point) {
    match point
    case CountNullZero(s) => NO_INIT in s
    case CountNull(s) => NO_INIT in s
    case PutEntry(s) => NO_INIT in s
    case CountReuse(s) => NO_INIT in s
    case Returned(s) => NO_INIT in s
    case _ => true
  }

  /** Points that belong to the callback. */
  predicate PointOf(op: Op, point: Point) {
    match op
    case Alloc(kind, _, _, _, _) =>
      point.Begin? || point.CountNullZero? || point.CountNull? || point.PutEntry? || point.CountReuse? || point.Returned?
      || (kind == Heap && (point.LoadCur? || point.LoadMax? || point.CompareExchange? || point.CountHeap?))
      || (kind == Stack && point.CountStack?)
    case Free(_) => point.Begin? || point.CountHeapFree? || point.DecHeap?
    case LeaveScope(_) => point.Begin? || point.EraseStack? || point.DecStack?
  }

  // ----- Invariants of one thread -----

  /** How far the map size is ahead of the counters because of the callback in progress. */
  function InFlight(pc: Pc): int {
    if pc.Idle? then 0 else
      match pc.point
      case Returned(_) => 1
      case LoadCur => 1
      case LoadMax(_) => 1
      case CompareExchange(_, _) => 1
      case CountHeap => 1
      case CountStack => 1
      case CountHeapFree => -1
      case _ => 0
  }

  /** Stack addresses that are pushed but not yet counted, or counted but already erased. */
  function Uncounted(pc: Pc): int {
    if pc.Idle? then 0 else
      match pc.point
      case CountStack => 1
      case DecStack(n) => 0 - n
      case _ => 0
  }

  /** `log` lists the callbacks the thread has entered, `peak` the largest stack it has had. */
  ghost predicate ThreadInv(th: Thread, log: seq<Op>, peak: nat) {
    && (th.pc.At? ==> PointOf(th.pc.op, th.pc.point) && StatusTagged(th.pc.point)
                      && log != [] && log[|log| - 1] == th.pc.op)
    && (th.pc.At? && th.pc.point.EraseStack? ==> th.pc.point.n == Min(th.pc.op.allocaCount, |th.stackVars|))
    && th.stackVars == StackAfter(if StackDone(th.pc) || log == [] then log else log[..|log| - 1], [])
    && th.curStackAllocs + Uncounted(th.pc) == |th.stackVars|
    && Max(th.maxStackAllocs, th.curStackAllocs + Max(Uncounted(th.pc), 0)) == peak
  }

  function Contribution(th: Thread): int {
    th.stackAllocs - th.stackAllocsFree + InFlight(th.pc)
  }

  /** The counters' account of how many entries the map has, without the stack counters. */
  function SharedAccount(sh: Shared): int {
    sh.heapAllocs + sh.globalAllocs - sh.nullAlloc - sh.nullAndZeroAlloc - sh.addrReuses - sh.heapAllocsFree
  }

  /** The next step overwrites an entry of type id -1, which put does not report as a reuse. */
  predicate HidesReuse(sh: Shared, th: Thread) {
    th.pc.At? && th.pc.op.Alloc? && th.pc.point.PutEntry?
    && th.pc.op.addr in sh.entries && sh.entries[th.pc.op.addr].typeId == -1
  }

  /** The next step overwrites an entry that a callback has recorded. */
  predicate Overwrites(sh: Shared, th: Thread) {
    th.pc.At? && th.pc.op.Alloc? && th.pc.point.PutEntry?
    && th.pc.op.addr in sh.entries && sh.entries[th.pc.op.addr].typeId != -1
  }

  /** The next step is a heap free that finds an entry. */
  predicate FreesEntry(sh: Shared, th: Thread) {
    th.pc.At? && th.pc.op.Free? && th.pc.point.Begin? && th.pc.op.ptr != NULL && th.pc.op.ptr in sh.entries
  }

  function Hidden(sh: Shared, th: Thread): int {
    if HidesReuse(sh, th) then 1 else 0
  }

  lemma ReturnedKeepsThread(db: Database, sh: Shared, th: Thread, spurious: bool, log: seq<Op>, peak: nat)
    requires th.pc.At? && th.pc.op.Alloc? && th.pc.point.Returned? && ThreadInv(th, log, peak)
    ensures var (_, th') := AllocStep(db, sh, th, spurious);
            ThreadInv(th', log, Max(peak, |th'.stackVars|))
  {
  }

  lemma OffStackKeepsThread(db: Database, sh: Shared, th: Thread, spurious: bool, log: seq<Op>, peak: nat)
    requires th.pc.At? && th.pc.op.Alloc? && !th.pc.point.Returned? && !th.pc.point.CountStack?
    requires ThreadInv(th, log, peak)
    ensures var (_, th') := AllocStep(db, sh, th, spurious);
            ThreadInv(th', log, Max(peak, |th'.stackVars|))
  {
    assert AllocStep(db, sh, th, spurious).1.stackVars == th.stackVars;
  }

  lemma AllocStepKeepsThread(db: Database, sh: Shared, th: Thread, spurious: bool, log: seq<Op>, peak: nat)
    requires th.pc.At? && th.pc.op.Alloc? && ThreadInv(th, log, peak)
    ensures var (_, th') := AllocStep(db, sh, th, spurious);
            ThreadInv(th', log, Max(peak, |th'.stackVars|))
  {
    if th.pc.point.Returned? {
      ReturnedKeepsThread(db, sh, th, spurious, log, peak);
    } else if !th.pc.point.CountStack? {
      OffStackKeepsThread(db, sh, th, spurious, log, peak);
    }
  }

  lemma LeaveStepKeepsThread(sh: Shared, th: Thread, log: seq<Op>, peak: nat)
    requires th.pc.At? && th.pc.op.LeaveScope? && ThreadInv(th, log, peak)
    ensures var (_, th') := LeaveStep(sh, th);
            ThreadInv(th', log, Max(peak, |th'.stackVars|))
  {
    match th.pc.point
    case EraseStack(n) => EraseKeepsThread(sh, th, log, peak);
    case DecStack(n) =>
    case _ =>
  }

  lemma EraseKeepsThread(sh: Shared, th: Thread, log: seq<Op>, peak: nat)
    requires th.pc.At? && th.pc.op.LeaveScope? && th.pc.point.EraseStack? && ThreadInv(th, log, peak)
    ensures var (_, th') := LeaveStep(sh, th);
            ThreadInv(th', log, Max(peak, |th'.stackVars|))
  {
    var th' := LeaveStep(sh, th).1;
    assert StackAfter(log, []) == StackEffect(th.pc.op, StackAfter(log[..|log| - 1], []));
    assert th'.stackVars == StackAfter(log, []) && |th'.stackVars| == |th.stackVars| - th.pc.point.n;
  }

  lemma MicroStepKeepsThread(db: Database, sh: Shared, th: Thread, spurious: bool, log: seq<Op>, peak: nat)
    requires th.pc.At? && ThreadInv(th, log, peak)
    ensures var (_, th') := MicroStep(db, sh, th, spurious);
            ThreadInv(th', log, Max(peak, |th'.stackVars|))
  {
    match th.pc.op
    case Alloc(_, _, _, _, _) => AllocStepKeepsThread(db, sh, th, spurious, log, peak);
    case Free(_) =>
    case LeaveScope(_) => LeaveStepKeepsThread(sh, th, log, peak);
  }

  /** What the map has beyond the account of the shared counters. */
  function Surplus(sh: Shared): int {
    |sh.entries| - SharedAccount(sh)
  }

  lemma PutSize(m: AllocEntries, addr: Addr, info: PointerInfo)
    ensures |m[addr := info]| == |m| + if addr in m then 0 else 1
  {
    assert m[addr := info].Keys == m.Keys + {addr};
    assert |m[addr := info].Keys| == |m[addr := info]| && |m.Keys| == |m|;
  }

  lemma EraseSize(m: AllocEntries, addr: Addr)
    requires addr in m
    ensures |m - {addr}| == |m| - 1
  {
    assert (m - {addr}).Keys == m.Keys - {addr};
    assert |(m - {addr}).Keys| == |m - {addr}| && |m.Keys| == |m|;
  }

  lemma AllocStepKeepsAccount(db: Database, sh: Shared, th: Thread, spurious: bool)
    requires th.pc.At? && th.pc.op.Alloc? && PointOf(th.pc.op, th.pc.point) && StatusTagged(th.pc.point)
    ensures var (sh', th') := AllocStep(db, sh, th, spurious);
            Surplus(sh') - Contribution(th') == Surplus(sh) - Contribution(th) - Hidden(sh, th)
  {
    if th.pc.point.PutEntry? {
      var addr := th.pc.op.addr;
      PutSize(sh.entries, addr, PointerInfo(th.pc.op.typeId, th.pc.op.count, th.pc.op.retAddr));
    }
  }

  lemma FreeStepKeepsAccount(sh: Shared, th: Thread)
    requires th.pc.At? && th.pc.op.Free? && PointOf(th.pc.op, th.pc.point)
    ensures var (sh', th') := FreeStep(sh, th);
            Surplus(sh') - Contribution(th') == Surplus(sh) - Contribution(th)
  {
    if th.pc.point.Begin? && th.pc.op.ptr in sh.entries {
      EraseSize(sh.entries, th.pc.op.ptr);
    }
  }

  lemma LeaveStepKeepsAccount(sh: Shared, th: Thread)
    requires th.pc.At? && th.pc.op.LeaveScope? && PointOf(th.pc.op, th.pc.point)
    ensures var (sh', th') := LeaveStep(sh, th);
            Surplus(sh') - Contribution(th') == Surplus(sh) - Contribution(th)
  {
    if th.pc.point.Begin? {
      RemovedCountIsDifference(sh.entries, Top(th.stackVars, Min(th.pc.op.allocaCount, |th.stackVars|)));
    }
  }

  /** A step changes the map size and the counters alike, but for a hidden reuse. */
  lemma MicroStepKeepsAccount(db: Database, sh: Shared, th: Thread, spurious: bool)
    requires th.pc.At? && PointOf(th.pc.op, th.pc.point) && StatusTagged(th.pc.point)
    ensures var (sh', th') := MicroStep(db, sh, th, spurious);
            Surplus(sh') - Contribution(th') == Surplus(sh) - Contribution(th) - Hidden(sh, th)
  {
    match th.pc.op
    case Alloc(_, _, _, _, _) => AllocStepKeepsAccount(db, sh, th, spurious);
    case Free(_) => FreeStepKeepsAccount(sh, th);
    case LeaveScope(_) => LeaveStepKeepsAccount(sh, th);
  }

  /** Entering a callback. */
  lemma StartKeepsThread(th: Thread, op: Op, log: seq<Op>, peak: nat)
    requires th.pc.Idle? && ThreadInv(th, log, peak)
    ensures ThreadInv(th.(pc := At(op, Begin)), log + [op], peak)
  {
    assert (log + [op])[..|log|] == log;
  }

  // ----- Many threads -----

  /** What has happened so far: callbacks entered and largest stack per thread, and facts about shared counters. */
  datatype History = History(
    logs: seq<seq<Op>>, stackPeaks: seq<nat>,
    heapPeak: int,         // largest value of curHeapAllocs
    proposed: set<int>,    // values some thread has passed to updateMax
    hiddenReuses: int,     // overwritten entries of type id -1
    overwritten: nat,      // overwritten entries of other type ids
    freed: nat)            // entries removed by heap frees

  datatype System = System(shared: Shared, threads: seq<Thread>, history: History) {
    predicate Quiescent() {
      forall t :: 0 <= t < |threads| ==> threads[t].pc.Idle?
    }
  }

  /** The scheduler picks a thread; a compare-and-exchange of that thread may fail spuriously. */
  datatype Action = Enter(t: nat, op: Op) | Advance(t: nat, spurious: bool)

  function Start(n: nat): System {
    System(SHARED_INIT, seq(n, _ => THREAD_INIT), History(seq(n, _ => []), seq(n, _ => 0), 0, {}, 0, 0, 0))
  }

  predicate Enabled(s: System, a: Action) {
    && a.t < |s.threads| == |s.history.logs| == |s.history.stackPeaks|
    && s.threads[a.t].pc.Idle? == a.Enter?
  }

  function Apply(db: Database, s: System, a: Action): System
    requires Enabled(s, a)
  {
    var t, th, h := a.t, s.threads[a.t], s.history;
    match a
    case Enter(_, op) =>
      s.(threads := s.threads[t := th.(pc := At(op, Begin))], history := h.(logs := h.logs[t := h.logs[t] + [op]]))
    case Advance(_, spurious) =>
      var (sh', th') := MicroStep(db, s.shared, th, spurious);
      System(sh', s.threads[t := th'],
             h.(stackPeaks := h.stackPeaks[t := Max(h.stackPeaks[t], |th'.stackVars|)],
                heapPeak := Max(h.heapPeak, sh'.curHeapAllocs),
                proposed := if th.pc.point.LoadCur? then h.proposed + {s.shared.curHeapAllocs} else h.proposed,
                hiddenReuses := h.hiddenReuses + Hidden(s.shared, th),
                overwritten := h.overwritten + (if Overwrites(s.shared, th) then 1 else 0),
                freed := h.freed + if FreesEntry(s.shared, th) then 1 else 0))
  }

  /** Where a schedule of `n` threads leads; None when it picks a step that is not possible. */
  function Outcome(db: Database, n: nat, actions: seq<Action>): Option<System> {
    if actions == [] then Some(Start(n)) else
      var before := Outcome(db, n, actions[..|actions| - 1]);
      var last := actions[|actions| - 1];
      if before.Some? && Enabled(before.value, last) then Some(Apply(db, before.value, last)) else None
  }

  function TotalContribution(threads: seq<Thread>): int {
    if threads == [] then 0
    else TotalContribution(threads[..|threads| - 1]) + Contribution(threads[|threads| - 1])
  }

  lemma {:induction false} ContributionOfUpdate(threads: seq<Thread>, t: nat, th: Thread)
    requires t < |threads|
    ensures TotalContribution(threads[t := th]) == TotalContribution(threads) - Contribution(threads[t]) + Contribution(th)
    decreases |threads|
  {
    var init := threads[..|threads| - 1];
    if t < |threads| - 1 {
      ContributionOfUpdate(init, t, th);
      assert threads[t := th][..|threads| - 1] == init[t := th];
    } else {
      assert threads[t := th][..|threads| - 1] == init;
    }
  }

  ghost predicate ThreadsInv(s: System) {
    && |s.threads| == |s.history.logs| == |s.history.stackPeaks|
    && forall t :: 0 <= t < |s.threads| ==> ThreadInv(s.threads[t], s.history.logs[t], s.history.stackPeaks[t])
  }

  ghost predicate AccountInv(s: System) {
    Surplus(s.shared) + s.history.hiddenReuses == TotalContribution(s.threads)
  }

  /** The value the thread has read and has yet to make the maximum reach. */
  function Proposal(pc: Pc): Option<int> {
    if pc.At? && (pc.point.LoadMax? || pc.point.CompareExchange?) then Some(pc.point.newVal) else None
  }

  ghost predicate ProposalInv(s: System, pc: Pc) {
    && (Proposal(pc).Some? ==> Proposal(pc).value in s.history.proposed)
    && (pc.At? && pc.point.CompareExchange? ==> pc.point.prevMax <= s.shared.maxHeapAllocs)
  }

  ghost predicate HeapInv(s: System) {
    var max, h := s.shared.maxHeapAllocs, s.history;
    && s.shared.curHeapAllocs <= h.heapPeak
    && 0 <= max && (max == 0 || max in h.proposed)
    && (forall v :: v in h.proposed ==> v <= h.heapPeak)
    && 0 <= h.heapPeak
    && (forall v :: v in h.proposed ==> v <= max || exists t :: 0 <= t < |s.threads| && Proposal(s.threads[t].pc) == Some(v))
    && (forall t :: 0 <= t < |s.threads| ==> ProposalInv(s, s.threads[t].pc))
  }

  lemma StartInv(n: nat)
    ensures SystemInv(Start(n))
  {
    StartThreads(n);
    StartAccount(n);
    StartHeap(n);
  }

  lemma StartAccount(n: nat)
    ensures AccountInv(Start(n))
  {
    NothingToCount(n);
  }

  lemma StartHeap(n: nat)
    ensures HeapInv(Start(n))
  {
    forall t | 0 <= t < n ensures ProposalInv(Start(n), Start(n).threads[t].pc) {
      assert Start(n).threads[t] == THREAD_INIT;
    }
  }

  lemma StartThreads(n: nat)
    ensures ThreadsInv(Start(n))
  {
    var s := Start(n);
    forall t | 0 <= t < n ensures ThreadInv(s.threads[t], s.history.logs[t], s.history.stackPeaks[t]) {
      assert s.threads[t] == THREAD_INIT && s.history.logs[t] == [] && s.history.stackPeaks[t] == 0;
    }
  }

  lemma {:induction false} NothingToCount(n: nat)
    ensures TotalContribution(seq(n, _ => THREAD_INIT)) == 0
  {
    if n > 0 {
      NothingToCount(n - 1);
      assert seq(n, _ => THREAD_INIT)[..n - 1] == seq(n - 1, _ => THREAD_INIT);
    }
  }

  lemma ApplyKeepsThreads(db: Database, s: System, a: Action)
    requires Enabled(s, a) && ThreadsInv(s)
    ensures ThreadsInv(Apply(db, s, a))
  {
    var t := a.t;
    if a.Enter? {
      StartKeepsThread(s.threads[t], a.op, s.history.logs[t], s.history.stackPeaks[t]);
    } else {
      MicroStepKeepsThread(db, s.shared, s.threads[t], a.spurious, s.history.logs[t], s.history.stackPeaks[t]);
    }
  }

  lemma ApplyKeepsAccount(db: Database, s: System, a: Action)
    requires Enabled(s, a) && ThreadsInv(s) && AccountInv(s)
    ensures AccountInv(Apply(db, s, a))
  {
    ContributionOfUpdate(s.threads, a.t, Apply(db, s, a).threads[a.t]);
    if a.Advance? {
      MicroStepKeepsAccount(db, s.shared, s.threads[a.t], a.spurious);
    }
  }

  /**
   A step never lowers the maximum, only a compare-and-exchange raises it, to the value its thread proposes,
   and a thread stops proposing a value only when the maximum has reached it.
   */
  ghost predicate MaximumRises(sh: Shared, th: Thread, sh': Shared, th': Thread)
    requires th.pc.At?
  {
    && sh.maxHeapAllocs <= sh'.maxHeapAllocs
    && (sh'.maxHeapAllocs != sh.maxHeapAllocs ==> Proposal(th.pc) == Some(sh'.maxHeapAllocs))
    && (Proposal(th.pc).Some? ==> Proposal(th'.pc) == Proposal(th.pc) || Proposal(th.pc).value <= sh'.maxHeapAllocs)
    && (Proposal(th'.pc).Some? ==> Proposal(th'.pc) == Proposal(th.pc) || th.pc.point.LoadCur?)
    && (th.pc.point.LoadCur? ==> Proposal(th'.pc) == Some(sh.curHeapAllocs))
    && (th'.pc.At? && th'.pc.point.CompareExchange? ==> th'.pc.point.prevMax <= sh'.maxHeapAllocs)
  }

  lemma AllocStepRaisesMaximum(db: Database, sh: Shared, th: Thread, spurious: bool)
    requires th.pc.At? && th.pc.op.Alloc? && PointOf(th.pc.op, th.pc.point)
    requires th.pc.point.CompareExchange? ==> th.pc.point.prevMax <= sh.maxHeapAllocs
    ensures var (sh', th') := AllocStep(db, sh, th, spurious); MaximumRises(sh, th, sh', th')
  {
    if th.pc.point.CompareExchange? {
    } else if th.pc.point.LoadMax? {
    } else if th.pc.point.LoadCur? {
    } else {
      assert AllocStep(db, sh, th, spurious).0.maxHeapAllocs == sh.maxHeapAllocs;
    }
  }

  lemma MicroStepRaisesMaximum(db: Database, sh: Shared, th: Thread, spurious: bool)
    requires th.pc.At? && PointOf(th.pc.op, th.pc.point)
    requires th.pc.point.CompareExchange? ==> th.pc.point.prevMax <= sh.maxHeapAllocs
    ensures var (sh', th') := MicroStep(db, sh, th, spurious); MaximumRises(sh, th, sh', th')
  {
    if th.pc.op.Alloc? {
      AllocStepRaisesMaximum(db, sh, th, spurious);
    }
  }

  lemma EnterKeepsHeap(db: Database, s: System, a: Action)
    requires Enabled(s, a) && a.Enter? && HeapInv(s)
    ensures HeapInv(Apply(db, s, a))
  {
    var s' := Apply(db, s, a);
    forall v | v in s'.history.proposed && v > s'.shared.maxHeapAllocs
      ensures exists u :: 0 <= u < |s'.threads| && Proposal(s'.threads[u].pc) == Some(v)
    {
      var u :| 0 <= u < |s.threads| && Proposal(s.threads[u].pc) == Some(v);
      assert Proposal(s'.threads[u].pc) == Some(v);
    }
    forall u | 0 <= u < |s'.threads| ensures ProposalInv(s', s'.threads[u].pc) {
      assert ProposalInv(s, s.threads[u].pc);
    }
  }

  lemma AdvanceKeepsHeap(db: Database, s: System, a: Action)
    requires Enabled(s, a) && a.Advance? && ThreadsInv(s) && HeapInv(s)
    ensures HeapInv(Apply(db, s, a))
  {
    var th := s.threads[a.t];
    assert ProposalInv(s, th.pc) && ThreadInv(th, s.history.logs[a.t], s.history.stackPeaks[a.t]);
    MicroStepRaisesMaximum(db, s.shared, th, a.spurious);
    MaximumRisesKeepsHeap(s, a.t, Apply(db, s, a));
  }

  lemma MaximumRisesKeepsHeap(s: System, t: nat, s': System)
    requires HeapInv(s) && t < |s.threads| && s.threads[t].pc.At?
    requires |s'.threads| == |s.threads| && forall u :: 0 <= u < |s.threads| && u != t ==> s'.threads[u] == s.threads[u]
    requires MaximumRises(s.shared, s.threads[t], s'.shared, s'.threads[t])
    requires s'.history.heapPeak == Max(s.history.heapPeak, s'.shared.curHeapAllocs)
    requires s'.history.proposed == s.history.proposed + if s.threads[t].pc.point.LoadCur? then {s.shared.curHeapAllocs} else {}
    ensures HeapInv(s')
  {
    assert ProposalInv(s, s.threads[t].pc);
    forall v | v in s'.history.proposed && v > s'.shared.maxHeapAllocs
      ensures exists u :: 0 <= u < |s'.threads| && Proposal(s'.threads[u].pc) == Some(v)
    {
      if v !in s.history.proposed {
        assert Proposal(s'.threads[t].pc) == Some(v);
      } else {
        var u :| 0 <= u < |s.threads| && Proposal(s.threads[u].pc) == Some(v);
        assert Proposal(s'.threads[u].pc) == Some(v);
      }
    }
    forall u | 0 <= u < |s'.threads| ensures ProposalInv(s', s'.threads[u].pc) {
      assert ProposalInv(s, s.threads[u].pc);
    }
  }

  ghost predicate SystemInv(s: System) {
    ThreadsInv(s) && AccountInv(s) && HeapInv(s)
  }

  lemma {:induction false} RunKeepsInv(db: Database, n: nat, actions: seq<Action>)
    requires Outcome(db, n, actions).Some?
    ensures var s := Outcome(db, n, actions).value; SystemInv(s) && |s.threads| == n
    decreases |actions|
  {
    if actions == [] {
      StartInv(n);
    } else {
      RunKeepsInv(db, n, actions[..|actions| - 1]);
      var before, last := Outcome(db, n, actions[..|actions| - 1]).value, actions[|actions| - 1];
      ApplyKeepsThreads(db, before, last);
      ApplyKeepsAccount(db, before, last);
      if last.Enter? {
        EnterKeepsHeap(db, before, last);
      } else {
        AdvanceKeepsHeap(db, before, last);
      }
    }
  }

  // ----- What holds in every run -----

  function StackTotal(threads: seq<Thread>): int {
    if threads == [] then 0 else StackTotal(threads[..|threads| - 1]) + threads[|threads| - 1].stackAllocs
  }

  function StackFreeTotal(threads: seq<Thread>): int {
    if threads == [] then 0 else StackFreeTotal(threads[..|threads| - 1]) + threads[|threads| - 1].stackAllocsFree
  }

  lemma {:induction false} RestingContribution(threads: seq<Thread>)
    requires forall t :: 0 <= t < |threads| ==> threads[t].pc.Idle?
    ensures TotalContribution(threads) == StackTotal(threads) - StackFreeTotal(threads)
  {
    if threads != [] {
      RestingContribution(threads[..|threads| - 1]);
    }
  }

  /** Whenever no callback is running, the counters account for every map entry up to hidden reuses. */
  lemma Conservation(db: Database, n: nat, actions: seq<Action>)
    requires Outcome(db, n, actions).Some? && Outcome(db, n, actions).value.Quiescent()
    ensures var s := Outcome(db, n, actions).value;
            |s.shared.entries| + s.history.hiddenReuses
            == s.shared.heapAllocs + StackTotal(s.threads) + s.shared.globalAllocs
               - s.shared.nullAlloc - s.shared.nullAndZeroAlloc - s.shared.addrReuses
               - s.shared.heapAllocsFree - StackFreeTotal(s.threads)
  {
    RunKeepsInv(db, n, actions);
    RestingContribution(Outcome(db, n, actions).value.threads);
  }

  /** An input for which the account is off by one: the same address allocated twice with the default type id. */
  lemma HiddenReuseExample(db: Database, addr: Addr)
    requires addr != NULL
    ensures var op := Alloc(Heap, addr, -1, 1, NULL);
            var (sh1, th1) := Solo(db, SHARED_INIT, Entered(THREAD_INIT, op));
            var (sh2, _) := Solo(db, sh1, Entered(th1, op));
            |sh2.entries| == 1 && sh2.heapAllocs == 2 && sh2.addrReuses == sh2.heapAllocsFree == 0
  {
    var op := Alloc(Heap, addr, -1, 1, NULL);
    SoloIsCompleted(db, SHARED_INIT, THREAD_INIT, op);
    var (sh1, th1) := Completed(db, SHARED_INIT, THREAD_INIT, op);
    SoloIsCompleted(db, sh1, th1, op);
    var (sh2, _) := Completed(db, sh1, th1, op);
    assert sh2.entries == map[addr := PointerInfo(-1, 1, NULL)];
  }

  ghost predicate TypedSystem(s: System) {
    && s.history.hiddenReuses == 0
    && (forall a :: a in s.shared.entries ==> s.shared.entries[a].typeId != -1)
    && (forall t :: 0 <= t < |s.threads| ==> Typed(s.threads[t].pc))
  }

  predicate Typed(pc: Pc) {
    pc.At? && pc.op.Alloc? ==> pc.op.typeId != -1
  }

  lemma ApplyKeepsTyped(db: Database, s: System, a: Action)
    requires Enabled(s, a) && TypedSystem(s)
    requires a.Enter? && a.op.Alloc? ==> a.op.typeId != -1
    ensures TypedSystem(Apply(db, s, a))
  {
    var th := s.threads[a.t];
    assert Typed(th.pc);
    if a.Advance? && th.pc.op.LeaveScope? {
      ErasedMeaning(s.shared.entries, Top(th.stackVars, Min(th.pc.op.allocaCount, |th.stackVars|)));
    }
  }

  /** Reuses are only hidden by allocations whose type id is -1, the default of an empty map slot. */
  lemma {:induction false} NoHiddenReuses(db: Database, n: nat, actions: seq<Action>)
    requires Outcome(db, n, actions).Some?
    requires forall i :: 0 <= i < |actions| && actions[i].Enter? && actions[i].op.Alloc? ==> actions[i].op.typeId != -1
    ensures TypedSystem(Outcome(db, n, actions).value)
    decreases |actions|
  {
    if actions == [] {
      forall t | 0 <= t < n ensures Typed(Start(n).threads[t].pc) {
        assert Start(n).threads[t] == THREAD_INIT;
      }
    } else {
      NoHiddenReuses(db, n, actions[..|actions| - 1]);
      ApplyKeepsTyped(db, Outcome(db, n, actions[..|actions| - 1]).value, actions[|actions| - 1]);
    }
  }

  /** A thread between callbacks has exactly the stack its own callbacks make, and its counters tell its size and peak. */
  lemma ThreadStackTold(db: Database, n: nat, actions: seq<Action>, t: nat)
    requires Outcome(db, n, actions).Some? && t < n
    ensures var s := Outcome(db, n, actions).value;
            |s.threads| == n == |s.history.logs| == |s.history.stackPeaks| &&
            (s.threads[t].pc.Idle? ==>
              && s.threads[t].stackVars == StackAfter(s.history.logs[t], [])
              && s.threads[t].curStackAllocs == |s.threads[t].stackVars|
              && Max(s.threads[t].maxStackAllocs, s.threads[t].curStackAllocs) == s.history.stackPeaks[t])
  {
    RunKeepsInv(db, n, actions);
    var s := Outcome(db, n, actions).value;
    assert ThreadInv(s.threads[t], s.history.logs[t], s.history.stackPeaks[t]);
  }

  /** Stack size of thread `t`, and current heap count, with their recorded peaks. */
  function StackSizeOf(s: Option<System>, t: nat): int {
    if s.Some? && t < |s.value.threads| then |s.value.threads[t].stackVars| else 0
  }

  function StackPeakOf(s: Option<System>, t: nat): int {
    if s.Some? && t < |s.value.history.stackPeaks| then s.value.history.stackPeaks[t] else 0
  }

  function CurHeapOf(s: Option<System>): int {
    if s.Some? then s.value.shared.curHeapAllocs else 0
  }

  function HeapPeakOf(s: Option<System>): int {
    if s.Some? then s.value.history.heapPeak else 0
  }

  lemma LatestStep(db: Database, n: nat, actions: seq<Action>, t: nat)
    requires actions != [] && Outcome(db, n, actions).Some?
    ensures var before, now := Outcome(db, n, actions[..|actions| - 1]), Outcome(db, n, actions);
            && before.Some?
            && (t < n ==> StackPeakOf(now, t) == Max(StackPeakOf(before, t), StackSizeOf(now, t)))
            && HeapPeakOf(now) == Max(HeapPeakOf(before), CurHeapOf(now))
  {
    RunKeepsInv(db, n, actions);
    RunKeepsInv(db, n, actions[..|actions| - 1]);
    var before := Outcome(db, n, actions[..|actions| - 1]).value;
    if t < n {
      assert ThreadInv(before.threads[t], before.history.logs[t], before.history.stackPeaks[t]);
    }
  }

  /** The sizes the stack of thread `t` has had, and the values of curHeapAllocs, one for each state of the run. */
  function StackSizes(db: Database, n: nat, actions: seq<Action>, t: nat): seq<int> {
    (if actions == [] then [] else StackSizes(db, n, actions[..|actions| - 1], t))
    + [StackSizeOf(Outcome(db, n, actions), t)]
  }

  function HeapCounts(db: Database, n: nat, actions: seq<Action>): seq<int> {
    (if actions == [] then [] else HeapCounts(db, n, actions[..|actions| - 1]))
    + [CurHeapOf(Outcome(db, n, actions))]
  }

  ghost predicate IsLargest(v: int, vals: seq<int>) {
    v in vals && forall x :: x in vals ==> x <= v
  }

  lemma LargestOfMore(vals: seq<int>, v: int, x: int)
    requires IsLargest(v, vals)
    ensures IsLargest(Max(v, x), vals + [x])
  {
  }

  /** The recorded peaks are the largest values in the run: none was larger, and one was as large. */
  lemma {:induction false} PeaksAreLargest(db: Database, n: nat, actions: seq<Action>, t: nat)
    requires Outcome(db, n, actions).Some? && t < n
    ensures IsLargest(StackPeakOf(Outcome(db, n, actions), t), StackSizes(db, n, actions, t))
    ensures IsLargest(HeapPeakOf(Outcome(db, n, actions)), HeapCounts(db, n, actions))
    decreases |actions|
  {
    if actions == [] {
      assert StackSizes(db, n, actions, t) == [0] && HeapCounts(db, n, actions) == [0];
    } else {
      var init := actions[..|actions| - 1];
      LatestStep(db, n, actions, t);
      PeaksAreLargest(db, n, init, t);
      LargestOfMore(StackSizes(db, n, init, t), StackPeakOf(Outcome(db, n, init), t), StackSizeOf(Outcome(db, n, actions), t));
      LargestOfMore(HeapCounts(db, n, init), HeapPeakOf(Outcome(db, n, init)), CurHeapOf(Outcome(db, n, actions)));
    }
  }

  /**
   The heap maximum never exceeds the true peak and is zero or some proposed value; once no update is under way
   it is the greatest value proposed so far.
   */
  lemma MaximumTold(db: Database, n: nat, actions: seq<Action>)
    requires Outcome(db, n, actions).Some?
    ensures var s := Outcome(db, n, actions).value;
            var max := s.shared.maxHeapAllocs;
            && 0 <= max <= s.history.heapPeak
            && (max == 0 || max in s.history.proposed)
            && ((forall t :: 0 <= t < |s.threads| ==> Proposal(s.threads[t].pc).None?) ==>
                 forall v :: v in s.history.proposed ==> v <= max)
  {
    RunKeepsInv(db, n, actions);
  }

  /** The maximum and the set of proposals only grow. */
  lemma {:induction false} MaximumGrows(db: Database, n: nat, actions: seq<Action>, k: nat)
    requires Outcome(db, n, actions).Some? && k <= |actions|
    ensures Outcome(db, n, actions[..k]).Some?
    ensures var past, now := Outcome(db, n, actions[..k]).value, Outcome(db, n, actions).value;
            && past.shared.maxHeapAllocs <= now.shared.maxHeapAllocs
            && past.history.proposed <= now.history.proposed
    decreases |actions|
  {
    if k == |actions| {
      assert actions[..k] == actions;
    } else {
      var init, last := actions[..|actions| - 1], actions[|actions| - 1];
      MaximumGrows(db, n, init, k);
      assert init[..k] == actions[..k];
      RunKeepsInv(db, n, init);
      var before := Outcome(db, n, init).value;
      if last.Advance? {
        var th := before.threads[last.t];
        assert ThreadInv(th, before.history.logs[last.t], before.history.stackPeaks[last.t]) && ProposalInv(before, th.pc);
        MicroStepRaisesMaximum(db, before.shared, th, last.spurious);
      }
    }
  }

  /** In the k-th step of the run, thread `t` stops proposing `v`. */
  ghost predicate UpdateEnds(before: Option<System>, after: Option<System>, t: nat, v: int) {
    && before.Some? && t < |before.value.threads| && Proposal(before.value.threads[t].pc) == Some(v)
    && after.Some? && t < |after.value.threads| && Proposal(after.value.threads[t].pc) != Some(v)
  }

  lemma StepReaches(db: Database, s: System, a: Action, t: nat, v: int)
    requires SystemInv(s) && Enabled(s, a) && UpdateEnds(Some(s), Some(Apply(db, s, a)), t, v)
    ensures v <= Apply(db, s, a).shared.maxHeapAllocs
  {
    var th := s.threads[t];
    assert ThreadInv(th, s.history.logs[t], s.history.stackPeaks[t]) && ProposalInv(s, th.pc);
    assert a.t == t && a.Advance?;
    MicroStepRaisesMaximum(db, s.shared, th, a.spurious);
  }

  /**
   In every interleaving: once a thread has completed an update with `v`, the maximum is at least `v` in every later
   state, whatever other threads are doing.
   */
  lemma UpdateReaches(db: Database, n: nat, actions: seq<Action>, k: nat, t: nat, v: int)
    requires Outcome(db, n, actions).Some? && k < |actions|
    requires UpdateEnds(Outcome(db, n, actions[..k]), Outcome(db, n, actions[..k + 1]), t, v)
    ensures v <= Outcome(db, n, actions).value.shared.maxHeapAllocs
  {
    assert actions[..k + 1][..k] == actions[..k] && actions[..k + 1][k] == actions[k];
    RunKeepsInv(db, n, actions[..k]);
    StepReaches(db, Outcome(db, n, actions[..k]).value, actions[k], t, v);
    MaximumGrows(db, n, actions, k + 1);
  }

  // ----- One thread -----

  /** With one thread the maximum is the peak, except while that thread is about to raise it. */
  ghost predicate AtPeak(s: System) {
    |s.threads| == 1 &&
    var max, cur, pc := s.shared.maxHeapAllocs, s.shared.curHeapAllocs, s.threads[0].pc;
    && (pc.At? && pc.point.LoadCur? ==> s.history.heapPeak == Max(max, cur))
    && (pc.At? && pc.point.LoadMax? ==> pc.point.newVal == cur && s.history.heapPeak == Max(max, cur))
    && (pc.At? && pc.point.CompareExchange? ==>
          pc.point.newVal == cur && pc.point.prevMax == max && s.history.heapPeak == Max(max, cur))
    && (!(pc.At? && (pc.point.LoadCur? || pc.point.LoadMax? || pc.point.CompareExchange?)) ==> s.history.heapPeak == max)
  }

  lemma AllocStepAtPeak(db: Database, s: System, a: Action)
    requires Enabled(s, a) && a.Advance? && AtPeak(s) && SystemInv(s) && s.threads[0].pc.op.Alloc?
    ensures AtPeak(Apply(db, s, a))
  {
    var th := s.threads[0];
    assert ThreadInv(th, s.history.logs[0], s.history.stackPeaks[0]);
  }

  lemma ApplyAtPeak(db: Database, s: System, a: Action)
    requires Enabled(s, a) && AtPeak(s) && SystemInv(s)
    ensures AtPeak(Apply(db, s, a))
  {
    assert a.t == 0;
    if a.Advance? {
      assert ThreadInv(s.threads[0], s.history.logs[0], s.history.stackPeaks[0]);
      if s.threads[0].pc.op.Alloc? {
        AllocStepAtPeak(db, s, a);
      }
    }
  }

  /** In a run of one thread, between callbacks, the recorded heap maximum is the true peak. */
  lemma {:induction false} SingleThreadPeak(db: Database, actions: seq<Action>)
    requires Outcome(db, 1, actions).Some?
    ensures AtPeak(Outcome(db, 1, actions).value)
    ensures var s := Outcome(db, 1, actions).value;
            s.Quiescent() ==> s.shared.maxHeapAllocs == s.history.heapPeak
    decreases |actions|
  {
    if actions != [] {
      var init := actions[..|actions| - 1];
      SingleThreadPeak(db, init);
      RunKeepsInv(db, 1, init);
      ApplyAtPeak(db, Outcome(db, 1, init).value, actions[|actions| - 1]);
    }
  }

  // ----- Callbacks without interference -----

  /** Shared state and status after doAlloc. */
  function AllocOutcome(db: Database, sh: Shared, addr: Addr, typeId: int, count: nat, retAddr: Addr): (Shared, Status) {
    var known := if db.IsValid(typeId) then {NO_INIT} else {NO_INIT} + {UNKNOWN_ID};
    var status := if count == 0 then known + {ZERO_COUNT} else known;
    var sh1 := if count == 0 then sh.(zeroAlloc := sh.zeroAlloc + 1) else sh;
    if addr == NULL then
      if count == 0 then (sh1.(nullAndZeroAlloc := sh1.nullAndZeroAlloc + 1), status + {NULL_ZERO, ADDR_SKIPPED})
      else (sh1.(nullAlloc := sh1.nullAlloc + 1), status + {NULL_PTR, ADDR_SKIPPED})
    else
      var sh2 := sh1.(entries := sh1.entries[addr := PointerInfo(typeId, count, retAddr)]);
      if addr in sh.entries && sh.entries[addr].typeId != -1 then
        (sh2.(addrReuses := sh2.addrReuses + 1), status + {ADDR_REUSE} + {STATUS_OK})
      else (sh2, status + {STATUS_OK})
  }

  /** What each flag of a status says about the allocation and the entry that was there. */
  ghost predicate FlagsTell(db: Database, m: AllocEntries, addr: Addr, typeId: int, count: nat, status: Status) {
    && NO_INIT in status
    && (STATUS_OK in status <==> addr != NULL)
    && (ADDR_SKIPPED in status <==> addr == NULL)
    && (NULL_PTR in status <==> addr == NULL && count > 0)
    && (ZERO_COUNT in status <==> count == 0)
    && (NULL_ZERO in status <==> addr == NULL && count == 0)
    && (ADDR_REUSE in status <==> addr != NULL && addr in m && m[addr].typeId != -1)
    && (UNKNOWN_ID in status <==> !db.IsValid(typeId))
  }

  lemma OutcomeFlags(db: Database, sh: Shared, addr: Addr, typeId: int, count: nat, retAddr: Addr)
    ensures FlagsTell(db, sh.entries, addr, typeId, count, AllocOutcome(db, sh, addr, typeId, count, retAddr).1)
  {
  }

  /** State after a whole callback that ran alone. */
  function Completed(db: Database, sh: Shared, th: Thread, op: Op): (Shared, Thread) {
    match op
    case Alloc(kind, addr, typeId, count, retAddr) =>
      var (sh1, status) := AllocOutcome(db, sh, addr, typeId, count, retAddr);
      (match kind
       case Heap =>
         var cur := sh1.curHeapAllocs + 1;
         (sh1.(curHeapAllocs := cur, maxHeapAllocs := Max(sh1.maxHeapAllocs, cur), heapAllocs := sh1.heapAllocs + 1), th)
       case Stack =>
         (sh1, th.(stackVars := th.stackVars + [addr],
                   curStackAllocs := th.curStackAllocs + 1, stackAllocs := th.stackAllocs + 1))
       case Global => (sh1.(globalAllocs := sh1.globalAllocs + 1), th))
    case Free(ptr) =>
      if ptr == NULL || ptr !in sh.entries then (sh, th)
      else (sh.(entries := sh.entries - {ptr},
                heapAllocsFree := sh.heapAllocsFree + 1, curHeapAllocs := sh.curHeapAllocs - 1), th)
    case LeaveScope(allocaCount) => ScopeLeft(sh, th, Min(allocaCount, |th.stackVars|))
  }

  /** State after leaving a scope of `n` stack variables. */
  function ScopeLeft(sh: Shared, th: Thread, n: nat): (Shared, Thread)
    requires n <= |th.stackVars|
  {
    var entries := Erased(sh.entries, Top(th.stackVars, n));
    (sh.(entries := entries), ScopeErased(th, n, RemovedCount(sh.entries, Top(th.stackVars, n))))
  }

  function ScopeErased(th: Thread, n: nat, removed: int): Thread
    requires n <= |th.stackVars|
  {
    th.(stackVars := Rest(th.stackVars, n),
        stackAllocsFree := th.stackAllocsFree + removed,
        maxStackAllocs := Max(th.maxStackAllocs, th.curStackAllocs),
        curStackAllocs := th.curStackAllocs - n)
  }

  function Work(sh: Shared, pc: Pc): nat {
    if pc.Idle? then 0 else
      match pc.point
      case Begin => 20
      case CountNullZero(_) => 19
      case CountNull(_) => 19
      case PutEntry(_) => 18
      case CountReuse(_) => 17
      case Returned(_) => 16
      case LoadCur => 15
      case LoadMax(_) => 14
      case CompareExchange(prevMax, _) => if prevMax == sh.maxHeapAllocs then 12 else 13
      case CountHeap => 5
      case CountStack => 5
      case CountHeapFree => 6
      case DecHeap => 5
      case EraseStack(_) => 6
      case DecStack(_) => 5
  }

  /** Run the thread alone, without spurious failures, until its callback is over. */
  function Solo(db: Database, sh: Shared, th: Thread): (Shared, Thread)
    requires th.pc.At? ==> PointOf(th.pc.op, th.pc.point)
    decreases Work(sh, th.pc)
  {
    if th.pc.Idle? then (sh, th) else
      var (sh', th') := MicroStep(db, sh, th, false);
      Solo(db, sh', th')
  }

  function Entered(th: Thread, op: Op): Thread {
    th.(pc := At(op, Begin))
  }

  lemma SoloAlloc(db: Database, sh: Shared, th: Thread, op: Op)
    requires th.pc.Idle? && op.Alloc?
    ensures var (sh1, status) := AllocOutcome(db, sh, op.addr, op.typeId, op.count, op.retAddr);
            Solo(db, sh, Entered(th, op)) == Solo(db, sh1, th.(pc := At(op, Returned(status))))
  {
    var (sh1, th1) := MicroStep(db, sh, Entered(th, op), false);
    var (sh2, th2) := MicroStep(db, sh1, th1, false);
    assert Solo(db, sh, Entered(th, op)) == Solo(db, sh1, th1) == Solo(db, sh2, th2);
    if th2.pc.point.CountReuse? {
      var (sh3, th3) := MicroStep(db, sh2, th2, false);
      assert Solo(db, sh2, th2) == Solo(db, sh3, th3);
    }
  }

  lemma SoloHeapMaximum(db: Database, sh: Shared, th: Thread)
    requires th.pc.At? && th.pc.op.Alloc? && th.pc.op.kind == Heap && th.pc.point == LoadCur
    ensures Solo(db, sh, th)
         == (sh.(maxHeapAllocs := Max(sh.maxHeapAllocs, sh.curHeapAllocs), heapAllocs := sh.heapAllocs + 1),
             th.(pc := Idle))
  {
    var (sh1, th1) := MicroStep(db, sh, th, false);
    var (sh2, th2) := MicroStep(db, sh1, th1, false);
    var (sh3, th3) := MicroStep(db, sh2, th2, false);
    var (sh4, th4) := MicroStep(db, sh3, th3, false);
    assert Solo(db, sh, th) == Solo(db, sh1, th1) == Solo(db, sh2, th2) == Solo(db, sh3, th3) == Solo(db, sh4, th4);
  }

  lemma SoloAllocCompleted(db: Database, sh: Shared, th: Thread, op: Op)
    requires th.pc.Idle? && op.Alloc?
    ensures Solo(db, sh, Entered(th, op)) == Completed(db, sh, th, op)
  {
    SoloAlloc(db, sh, th, op);
    var (sh1, status) := AllocOutcome(db, sh, op.addr, op.typeId, op.count, op.retAddr);
    assert NO_INIT in status;
    var returned := th.(pc := At(op, Returned(status)));
    var (sh2, th2) := AllocStep(db, sh1, returned, false);
    assert Solo(db, sh1, returned) == Solo(db, sh2, th2);
    match op.kind
    case Heap => SoloHeapMaximum(db, sh2, th2);
    case Stack =>
      var (sh3, th3) := AllocStep(db, sh2, th2, false);
      assert Solo(db, sh2, th2) == Solo(db, sh3, th3);
    case Global =>
  }

  lemma SoloFreeCompleted(db: Database, sh: Shared, th: Thread, op: Op)
    requires th.pc.Idle? && op.Free?
    ensures Solo(db, sh, Entered(th, op)) == Completed(db, sh, th, op)
  {
    var (sh1, th1) := FreeStep(sh, Entered(th, op));
    assert Solo(db, sh, Entered(th, op)) == Solo(db, sh1, th1);
    if th1.pc.At? {
      var (sh2, th2) := FreeStep(sh1, th1);
      var (sh3, th3) := FreeStep(sh2, th2);
      assert Solo(db, sh1, th1) == Solo(db, sh2, th2) == Solo(db, sh3, th3);
    }
  }

  lemma SoloUnfolds(db: Database, sh: Shared, th: Thread)
    requires th.pc.At? && PointOf(th.pc.op, th.pc.point)
    ensures Solo(db, sh, th) == Solo(db, MicroStep(db, sh, th, false).0, MicroStep(db, sh, th, false).1)
  {
  }

  lemma SoloErase(db: Database, sh: Shared, th: Thread, n: nat)
    requires th.pc.At? && th.pc.op.LeaveScope? && th.pc.point == EraseStack(n) && n <= |th.stackVars|
    ensures Solo(db, sh, th)
         == (sh, th.(pc := Idle, stackVars := Rest(th.stackVars, n),
                     maxStackAllocs := Max(th.maxStackAllocs, th.curStackAllocs), curStackAllocs := th.curStackAllocs - n))
  {
    var (sh1, th1) := LeaveStep(sh, th);
    assert Solo(db, sh, th) == Solo(db, sh1, th1);
    var (sh2, th2) := LeaveStep(sh1, th1);
    assert Solo(db, sh1, th1) == Solo(db, sh2, th2) == (sh2, th2);
  }

  /** The thread after the locked removal of its top `n` addresses. */
  function Removed(sh: Shared, th: Thread, op: Op, n: nat): (Shared, Thread)
    requires n <= |th.stackVars|
  {
    var entries := Erased(sh.entries, Top(th.stackVars, n));
    (sh.(entries := entries),
     th.(pc := At(op, EraseStack(n)), stackAllocsFree := th.stackAllocsFree + RemovedCount(sh.entries, Top(th.stackVars, n))))
  }

  lemma SoloRemoved(db: Database, sh: Shared, th: Thread, op: Op, n: nat)
    requires op.LeaveScope? && n <= |th.stackVars|
    ensures Solo(db, Removed(sh, th, op, n).0, Removed(sh, th, op, n).1)
         == (Removed(sh, th, op, n).0, ScopeLeft(sh, th, n).1.(pc := Idle))
  {
    SoloErase(db, Removed(sh, th, op, n).0, Removed(sh, th, op, n).1, n);
  }

  lemma SoloLeaveCompleted(db: Database, sh: Shared, th: Thread, op: Op)
    requires th.pc.Idle? && op.LeaveScope?
    ensures Solo(db, sh, Entered(th, op)) == ScopeLeft(sh, th, Min(op.allocaCount, |th.stackVars|))
  {
    var n := Min(op.allocaCount, |th.stackVars|);
    assert MicroStep(db, sh, Entered(th, op), false) == Removed(sh, th, op, n);
    SoloUnfolds(db, sh, Entered(th, op));
    SoloRemoved(db, sh, th, op, n);
  }

  /** A callback that runs alone has the effect of its closed form. */
  lemma SoloIsCompleted(db: Database, sh: Shared, th: Thread, op: Op)
    requires th.pc.Idle?
    ensures Solo(db, sh, Entered(th, op)) == Completed(db, sh, th, op)
  {
    match op
    case Alloc(_, _, _, _, _) => SoloAllocCompleted(db, sh, th, op);
    case Free(_) => SoloFreeCompleted(db, sh, th, op);
    case LeaveScope(_) => SoloLeaveCompleted(db, sh, th, op);
  }

  /**
   Leaving an empty scope, which the guarded exit does not do, changes nothing but the recorded stack maximum;
   what that maximum and the current size tell about the peak stays the same.
   */
  lemma EmptyScopeExit(db: Database, sh: Shared, th: Thread)
    requires th.pc.Idle?
    ensures var (sh', th') := Completed(db, sh, th, LeaveScope(0));
            && sh' == sh
            && th' == th.(maxStackAllocs := th'.maxStackAllocs)
            && Max(th'.maxStackAllocs, th'.curStackAllocs) == Max(th.maxStackAllocs, th.curStackAllocs)
  {
    assert Erased(sh.entries, Top(th.stackVars, 0)) == sh.entries;
    assert Rest(th.stackVars, 0) == th.stackVars;
  }

  /** Leaving a scope removes the popped addresses from the map and touches no other entry, in any interleaving. */
  lemma ScopeExitRemoves(db: Database, sh: Shared, th: Thread, spurious: bool, addr: Addr)
    requires th.pc.At? && th.pc.op.LeaveScope? && th.pc.point == Begin
    ensures var (sh', th') := MicroStep(db, sh, th, spurious);
            var popped := Top(th.stackVars, Min(th.pc.op.allocaCount, |th.stackVars|));
            && (addr in popped ==> addr !in sh'.entries)
            && (addr !in popped ==> (addr in sh'.entries <==> addr in sh.entries))
            && (addr !in popped && addr in sh.entries ==> sh'.entries[addr] == sh.entries[addr])
            && th.stackVars == StackEffect(th.pc.op, th.stackVars) + popped
  {
    ErasedMeaning(sh.entries, Top(th.stackVars, Min(th.pc.op.allocaCount, |th.stackVars|)));
  }

  // ----- The tracker object -----

  /** Counters of softcounter::AccessRecorder and of the recorder of the calling thread. */
  class AccessRecorder {
    var heapAllocs: int
    var heapAllocsFree: int
    var globalAllocs: int
    var curHeapAllocs: int
    var maxHeapAllocs: int
    var addrReuses: int
    var nullAlloc: int
    var zeroAlloc: int
    var nullAndZeroAlloc: int
    var curStackAllocs: int
    var maxStackAllocs: int
    var stackAllocs: int
    var stackAllocsFree: int
    // Kept for heap allocations only: arrays, the share of the calling thread, and counts by type id.
    var heapArray: int
    var threadHeapAllocs: int
    var threadHeapArray: int
    var heapAlloc: map<int, int>

    constructor ()
      ensures heapAllocs == heapAllocsFree == globalAllocs == curHeapAllocs == maxHeapAllocs == 0
      ensures addrReuses == nullAlloc == zeroAlloc == nullAndZeroAlloc == 0
      ensures curStackAllocs == maxStackAllocs == stackAllocs == stackAllocsFree == 0
      ensures heapArray == threadHeapAllocs == threadHeapArray == 0 && heapAlloc == map[]
    {
      heapAllocs, heapAllocsFree, globalAllocs, curHeapAllocs, maxHeapAllocs := 0, 0, 0, 0, 0;
      addrReuses, nullAlloc, zeroAlloc, nullAndZeroAlloc := 0, 0, 0, 0;
      curStackAllocs, maxStackAllocs, stackAllocs, stackAllocsFree := 0, 0, 0, 0;
      heapArray, threadHeapAllocs, threadHeapArray, heapAlloc := 0, 0, 0, map[];
    }

    /** compare_exchange_weak on maxHeapAllocs: it may fail although the value fits, and then reports that value. */
    method CompareExchangeWeak(expected: int, desired: int, spurious: bool) returns (ok: bool, observed: int)
      modifies this`maxHeapAllocs
      ensures ok <==> old(maxHeapAllocs) == expected && !spurious
      ensures maxHeapAllocs == if ok then desired else old(maxHeapAllocs)
      ensures observed == if ok then expected else old(maxHeapAllocs)
    {
      ok, observed := maxHeapAllocs == expected && !spurious, expected;
      if ok {
        maxHeapAllocs := desired;
      } else {
        observed := maxHeapAllocs;
      }
    }

    /** updateMax on maxHeapAllocs; the hardware lets finitely many attempts fail spuriously. */
    method UpdateMaxHeap(newVal: int, spuriousFailures: nat)
      modifies this`maxHeapAllocs
      ensures maxHeapAllocs == Max(old(maxHeapAllocs), newVal)
    {
      var prevMax := maxHeapAllocs;
      var failures := spuriousFailures;
      var done := false;
      while prevMax < newVal && !done
        invariant maxHeapAllocs == if done then newVal else old(maxHeapAllocs)
        invariant prevMax == old(maxHeapAllocs) && (done ==> prevMax < newVal)
        decreases if done then 0 else 1, failures
      {
        done, prevMax := CompareExchangeWeak(prevMax, newVal, failures > 0);
        failures := if failures > 0 then failures - 1 else 0;
      }
    }

    method IncHeapAlloc(typeId: int, count: nat, spuriousFailures: nat)
      modifies this`curHeapAllocs, this`maxHeapAllocs, this`heapAllocs
      modifies this`heapArray, this`threadHeapAllocs, this`threadHeapArray, this`heapAlloc
      ensures curHeapAllocs == old(curHeapAllocs) + 1 && heapAllocs == old(heapAllocs) + 1
      ensures maxHeapAllocs == Max(old(maxHeapAllocs), curHeapAllocs)
      ensures threadHeapAllocs == old(threadHeapAllocs) + 1
      ensures heapArray - old(heapArray) == threadHeapArray - old(threadHeapArray) == if count > 1 then 1 else 0
      ensures heapAlloc == old(heapAlloc)[typeId := CountOf(old(heapAlloc), typeId) + 1]
    {
      curHeapAllocs := curHeapAllocs + 1;
      UpdateMaxHeap(curHeapAllocs, spuriousFailures);
      heapAllocs := heapAllocs + 1;
      if count > 1 {
        heapArray := heapArray + 1;
      }
      threadHeapAllocs := threadHeapAllocs + 1;
      if count > 1 {
        threadHeapArray := threadHeapArray + 1;
      }
      heapAlloc := heapAlloc[typeId := CountOf(heapAlloc, typeId) + 1];
    }

    /** The callback of remove_range, for each address in turn: count the entries that were found. */
    method IncStackFrees(log: seq<Option<PointerInfo>>)
      modifies this`stackAllocsFree
      ensures stackAllocsFree == old(stackAllocsFree) + SomeCount(log)
    {
      for i := 0 to |log|
        invariant stackAllocsFree == old(stackAllocsFree) + SomeCount(log[..i])
      {
        if log[i].Some? {
          stackAllocsFree := stackAllocsFree + 1;
        }
        assert log[..i + 1][..i] == log[..i];
      }
      assert log[..|log|] == log;
    }

    method DecStackAlloc(amount: nat)
      modifies this`curStackAllocs, this`maxStackAllocs
      ensures maxStackAllocs == Max(old(maxStackAllocs), old(curStackAllocs))
      ensures curStackAllocs == old(curStackAllocs) - amount
    {
      if maxStackAllocs < curStackAllocs {
        maxStackAllocs := curStackAllocs;
      }
      curStackAllocs := curStackAllocs - amount;
    }
  }

  /** A type that has not been counted has count zero. */
  function CountOf(counts: map<int, int>, typeId: int): int {
    if typeId in counts then counts[typeId] else 0
  }

  function SomeCount(log: seq<Option<PointerInfo>>): nat {
    if log == [] then 0 else SomeCount(log[..|log| - 1]) + if log[|log| - 1].Some? then 1 else 0
  }

  lemma LastRemoval(m: AllocEntries, addrs: seq<Addr>, log: seq<Option<PointerInfo>>)
    requires addrs != [] && IsRemovalLog(m, addrs, log)
    ensures var init, last := addrs[..|addrs| - 1], addrs[|addrs| - 1];
            && IsRemovalLog(m, init, log[..|log| - 1])
            && (log[|log| - 1].Some? <==> last in Erased(m, init))
  {
    var init, last := addrs[..|addrs| - 1], addrs[|addrs| - 1];
    assert forall i :: 0 <= i < |init| ==> init[..i] == addrs[..i];
    ErasedMeaning(m, init);
  }

  lemma {:induction false} RemovalsCounted(m: AllocEntries, addrs: seq<Addr>, log: seq<Option<PointerInfo>>)
    requires IsRemovalLog(m, addrs, log)
    ensures SomeCount(log) == RemovedCount(m, addrs)
    decreases |addrs|
  {
    if addrs != [] {
      LastRemoval(m, addrs, log);
      RemovalsCounted(m, addrs[..|addrs| - 1], log[..|log| - 1]);
    }
  }

  /** Removing the top addresses and then erasing them is leaving the scope. */
  lemma RemovedThenErased(sh: Shared, th: Thread, n: nat)
    requires n <= |th.stackVars|
    ensures var popped := Top(th.stackVars, n);
            var removed := th.(stackAllocsFree := th.stackAllocsFree + RemovedCount(sh.entries, popped));
            ScopeLeft(sh, th, n) == (sh.(entries := Erased(sh.entries, popped)), ScopeErased(removed, n, 0))
  {
  }

  class AllocationTracker {
    const db: Database
    const wrapper: PointerMap
    const recorder: AccessRecorder
    var stackVars: seq<Addr>

    constructor (db: Database)
      ensures this.db == db && SharedView() == SHARED_INIT && ThreadView() == THREAD_INIT
      ensures fresh(wrapper) && fresh(recorder)
    {
      this.db := db;
      wrapper := new PointerMap();
      recorder := new AccessRecorder();
      stackVars := [];
    }

    function SharedView(): Shared
      reads this, wrapper, recorder
    {
      Shared(wrapper.entries,
             recorder.heapAllocs, recorder.heapAllocsFree, recorder.globalAllocs,
             recorder.curHeapAllocs, recorder.maxHeapAllocs,
             recorder.addrReuses, recorder.nullAlloc, recorder.zeroAlloc, recorder.nullAndZeroAlloc)
    }

    function ThreadView(): Thread
      reads this, recorder
    {
      Thread(Idle, stackVars,
             recorder.curStackAllocs, recorder.maxStackAllocs, recorder.stackAllocs, recorder.stackAllocsFree)
    }

    method DoAlloc(addr: Addr, typeId: int, count: nat, retAddr: Addr) returns (status: Status)
      modifies wrapper, recorder
      ensures (SharedView(), status) == AllocOutcome(db, old(SharedView()), addr, typeId, count, retAddr)
      ensures ThreadView() == old(ThreadView()) && FlagsTell(db, old(wrapper.entries), addr, typeId, count, status)
    {
      OutcomeFlags(db, SharedView(), addr, typeId, count, retAddr);
      status := {NO_INIT};
      if !db.IsValid(typeId) {
        status := status + {UNKNOWN_ID};
      }
      if count == 0 {
        recorder.zeroAlloc := recorder.zeroAlloc + 1;
        status := status + {ZERO_COUNT};
        if addr == NULL {
          recorder.nullAndZeroAlloc := recorder.nullAndZeroAlloc + 1;
          return status + {NULL_ZERO, ADDR_SKIPPED};
        }
      } else if addr == NULL {
        recorder.nullAlloc := recorder.nullAlloc + 1;
        return status + {NULL_PTR, ADDR_SKIPPED};
      }
      var overridden := wrapper.Put(addr, PointerInfo(typeId, count, retAddr));
      if overridden {
        recorder.addrReuses := recorder.addrReuses + 1;
        status := status + {ADDR_REUSE};
      }
      status := status + {STATUS_OK};
    }

    method OnAlloc(addr: Addr, typeId: int, count: nat, retAddr: Addr, spuriousFailures: nat)
      modifies this, wrapper, recorder
      ensures (SharedView(), ThreadView())
           == Completed(db, old(SharedView()), old(ThreadView()), Alloc(Heap, addr, typeId, count, retAddr))
    {
      var status := DoAlloc(addr, typeId, count, retAddr);
      if status != {ADDR_SKIPPED} {
        recorder.IncHeapAlloc(typeId, count, spuriousFailures);
      }
    }

    method OnAllocStack(addr: Addr, typeId: int, count: nat, retAddr: Addr)
      modifies this, wrapper, recorder
      ensures (SharedView(), ThreadView())
           == Completed(db, old(SharedView()), old(ThreadView()), Alloc(Stack, addr, typeId, count, retAddr))
    {
      var status := DoAlloc(addr, typeId, count, retAddr);
      if status != {ADDR_SKIPPED} {
        stackVars := stackVars + [addr];
        recorder.curStackAllocs := recorder.curStackAllocs + 1;
        recorder.stackAllocs := recorder.stackAllocs + 1;
      }
    }

    method OnAllocGlobal(addr: Addr, typeId: int, count: nat, retAddr: Addr)
      modifies this, wrapper, recorder
      ensures (SharedView(), ThreadView())
           == Completed(db, old(SharedView()), old(ThreadView()), Alloc(Global, addr, typeId, count, retAddr))
    {
      var status := DoAlloc(addr, typeId, count, retAddr);
      if status != {ADDR_SKIPPED} {
        recorder.globalAllocs := recorder.globalAllocs + 1;
      }
    }

    /** doFreeHeap: whether an entry was removed. */
    method DoFreeHeap(addr: Addr) returns (ok: bool)
      modifies wrapper, recorder
      ensures ok <==> addr != NULL && addr in old(wrapper.entries)
      ensures SharedView() == if ok then old(SharedView()).(entries := old(wrapper.entries) - {addr},
                                                            heapAllocsFree := old(recorder.heapAllocsFree) + 1)
                              else old(SharedView())
      ensures ThreadView() == old(ThreadView())
    {
      if addr == NULL {
        return false;
      }
      var removed := wrapper.Remove(addr);
      if removed.None? {
        assert old(wrapper.entries) - {addr} == old(wrapper.entries);
        return false;
      }
      recorder.heapAllocsFree := recorder.heapAllocsFree + 1;
      ok := true;
    }

    method OnFreeHeap(addr: Addr)
      modifies this, wrapper, recorder
      ensures (SharedView(), ThreadView()) == Completed(db, old(SharedView()), old(ThreadView()), Free(addr))
    {
      var ok := DoFreeHeap(addr);
      if ok {
        recorder.curHeapAllocs := recorder.curHeapAllocs - 1;
      }
    }

    /** wrapper.remove_range with its counting callback. */
    method RemoveRange(popped: seq<Addr>)
      modifies wrapper, recorder`stackAllocsFree
      ensures SharedView() == old(SharedView()).(entries := Erased(old(wrapper.entries), popped))
      ensures ThreadView() == old(ThreadView()).(
                stackAllocsFree := old(recorder.stackAllocsFree) + RemovedCount(old(wrapper.entries), popped))
    {
      var log := wrapper.RemoveRange(popped);
      RemovalsCounted(old(wrapper.entries), popped, log);
      recorder.IncStackFrees(log);
    }

    /** Erase the top of the stack and lower the current count. */
    method EraseTop(n: nat)
      requires n <= |stackVars|
      modifies this, recorder
      ensures SharedView() == old(SharedView())
      ensures ThreadView() == ScopeErased(old(ThreadView()), n, 0)
    {
      stackVars := Rest(stackVars, n);
      recorder.DecStackAlloc(n);
    }

    method OnLeaveScope(allocaCount: nat)
      modifies this, wrapper, recorder
      ensures (SharedView(), ThreadView())
           == ScopeLeft(old(SharedView()), old(ThreadView()), Min(allocaCount, |old(stackVars)|))
    {
      var n := allocaCount;
      if n > |stackVars| {
        n := |stackVars|;
      }
      RemovedThenErased(SharedView(), ThreadView(), n);
      RemoveRange(Top(stackVars, n));
      EraseTop(n);
    }
  }
}
