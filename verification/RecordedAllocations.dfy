/**
 From callbacks to the map: what an allocation callback has recorded stays until another callback puts, frees or
 pops the same address, in every interleaving; and what leaves the map when an activation leaves its scope.
 */
module RecordedAllocations {
  import opened Wrappers
  import opened TypeDatabase
  import opened AllocMap
  import opened AllocationTracking
  import opened StackInstrumentation
  import opened StackScopes

  /** The step writes or removes the entry of `a`. */
  predicate Touches(s: System, action: Action, a: Addr) {
    action.Advance? && action.t < |s.threads| &&
    var th := s.threads[action.t];
    th.pc.At? &&
    match th.pc.op
    case Alloc(_, addr, _, _, _) => th.pc.point.PutEntry? && addr == a
    case Free(ptr) => th.pc.point.Begin? && ptr == a
    case LeaveScope(n) => th.pc.point.Begin? && a in Top(th.stackVars, Min(n, |th.stackVars|))
  }

  predicate SameEntry(m: AllocEntries, m': AllocEntries, a: Addr) {
    (a in m <==> a in m') && (a in m ==> m'[a] == m[a])
  }

  lemma UntouchedStays(db: Database, s: System, action: Action, a: Addr)
    requires Enabled(s, action) && !Touches(s, action, a)
    ensures SameEntry(s.shared.entries, Apply(db, s, action).shared.entries, a)
  {
    if action.Advance? {
      var th := s.threads[action.t];
      if th.pc.op.LeaveScope? && th.pc.point.Begin? {
        ErasedMeaning(s.shared.entries, Top(th.stackVars, Min(th.pc.op.allocaCount, |th.stackVars|)));
      }
    }
  }

  function InfoOf(op: Op): PointerInfo
    requires op.Alloc?
  {
    PointerInfo(op.typeId, op.count, op.retAddr)
  }

  /** The callback is the k-th of thread `t`. */
  ghost predicate IsCallback(s: System, t: nat, k: nat, op: Op) {
    t < |s.threads| == |s.history.logs| && k < |s.history.logs[t]| && s.history.logs[t][k] == op
  }

  /** Thread `t` is in its k-th callback. */
  ghost predicate InCallback(s: System, t: nat, k: nat) {
    t < |s.threads| == |s.history.logs| && s.threads[t].pc.At? && |s.history.logs[t]| == k + 1
  }

  /** The k-th callback of thread `t` has not put its entry yet. */
  ghost predicate BeforePut(s: System, t: nat, k: nat) {
    InCallback(s, t, k) && (s.threads[t].pc.point.Begin? || s.threads[t].pc.point.PutEntry?)
  }

  ghost predicate Holds(s: System, op: Op)
    requires op.Alloc?
  {
    op.addr in s.shared.entries && s.shared.entries[op.addr] == InfoOf(op)
  }

  /** In the steps `later`, taken after `first`, only the k-th callback of thread `t` touches the entry of `a`. */
  ghost predicate OnlyTouchedBy(db: Database, n: nat, first: seq<Action>, later: seq<Action>, a: Addr, t: nat, k: nat) {
    later == [] ||
    (var init := later[..|later| - 1];
     OnlyTouchedBy(db, n, first, init, a, t, k)
     && TouchIsOwn(Outcome(db, n, first + init), later[|later| - 1], a, t, k))
  }

  ghost predicate TouchIsOwn(s: Option<System>, action: Action, a: Addr, t: nat, k: nat) {
    s.Some? && Touches(s.value, action, a) ==> action.t == t && InCallback(s.value, t, k)
  }

  /** One step: the callback comes closer to its put, puts the entry, or finds it left alone. */
  lemma RecordStep(db: Database, s: System, action: Action, t: nat, k: nat, op: Op)
    requires SystemInv(s) && Enabled(s, action) && IsCallback(s, t, k, op) && op.Alloc? && op.addr != NULL
    requires BeforePut(s, t, k) || Holds(s, op)
    requires Touches(s, action, op.addr) ==> action.t == t && InCallback(s, t, k)
    ensures var s' := Apply(db, s, action); IsCallback(s', t, k, op) && (BeforePut(s', t, k) || Holds(s', op))
  {
    assert ThreadInv(s.threads[t], s.history.logs[t], s.history.stackPeaks[t]);
    if !Touches(s, action, op.addr) {
      UntouchedStays(db, s, action, op.addr);
    }
  }

  /** The run `first` ends by thread `t` entering its k-th callback. */
  ghost predicate Enters(db: Database, n: nat, first: seq<Action>, t: nat, k: nat, op: Op) {
    && first != [] && first[|first| - 1] == Enter(t, op)
    && Outcome(db, n, first).Some? && IsCallback(Outcome(db, n, first).value, t, k, op)
    && InCallback(Outcome(db, n, first).value, t, k)
  }

  ghost predicate RecordedOrPending(s: System, t: nat, k: nat, op: Op)
    requires op.Alloc?
  {
    SystemInv(s) && IsCallback(s, t, k, op) && (BeforePut(s, t, k) || Holds(s, op))
  }

  lemma EnteringIsPending(db: Database, n: nat, first: seq<Action>, t: nat, k: nat, op: Op)
    requires Enters(db, n, first, t, k, op) && op.Alloc?
    ensures RecordedOrPending(Outcome(db, n, first).value, t, k, op)
  {
    RunKeepsInv(db, n, first);
  }

  lemma RunExtends(db: Database, n: nat, actions: seq<Action>, last: Action)
    requires Outcome(db, n, actions + [last]).Some?
    ensures var before := Outcome(db, n, actions);
            before.Some? && Enabled(before.value, last)
            && Outcome(db, n, actions + [last]).value == Apply(db, before.value, last)
  {
    assert (actions + [last])[..|actions|] == actions;
  }

  /**
   In every interleaving: once the callback of an allocation at a non-null address is past its put, the map holds
   its type id, count and return address, unless a later callback has put, freed or popped the address.
   */
  lemma {:induction false} CallbackRecords(db: Database, n: nat, first: seq<Action>, later: seq<Action>, t: nat, k: nat, op: Op)
    requires Enters(db, n, first, t, k, op) && op.Alloc? && op.addr != NULL
    requires Outcome(db, n, first + later).Some? && OnlyTouchedBy(db, n, first, later, op.addr, t, k)
    ensures RecordedOrPending(Outcome(db, n, first + later).value, t, k, op)
    decreases |later|
  {
    if later == [] {
      assert first + later == first;
      EnteringIsPending(db, n, first, t, k, op);
    } else {
      var init, last := later[..|later| - 1], later[|later| - 1];
      assert first + later == (first + init) + [last];
      RunExtends(db, n, first + init, last);
      CallbackRecords(db, n, first, init, t, k, op);
      RecordStep(db, Outcome(db, n, first + init).value, last, t, k, op);
      RunKeepsInv(db, n, first + later);
    }
  }

  /** When the thread is between callbacks again, the entry is there. */
  lemma CompletedCallbackRecords(db: Database, n: nat, first: seq<Action>, later: seq<Action>, t: nat, k: nat, op: Op)
    requires Enters(db, n, first, t, k, op) && op.Alloc? && op.addr != NULL
    requires Outcome(db, n, first + later).Some? && OnlyTouchedBy(db, n, first, later, op.addr, t, k)
    ensures var s := Outcome(db, n, first + later).value;
            t < |s.threads| && (s.threads[t].pc.Idle? ==> Holds(s, op))
  {
    CallbackRecords(db, n, first, later, t, k, op);
  }

  // ----- Leaving a scope -----

  /** The thread has entered the last callback of the activation, and nothing of that callback has happened yet. */
  ghost predicate AtScopeExit(s: System, t: nat, before: seq<Op>, ops: seq<Op>) {
    && t < |s.threads| == |s.history.logs|
    && s.threads[t].pc.At? && s.threads[t].pc.point.Begin?
    && s.history.logs[t] == before + ops
  }

  /** On entering the last of some callbacks, the stack is the one the others have left. */
  lemma StackAtExit(th: Thread, log: seq<Op>, peak: nat, before: seq<Op>, ops: seq<Op>)
    requires ThreadInv(th, log, peak) && th.pc.At? && th.pc.point.Begin?
    requires ops != [] && ops[|ops| - 1].LeaveScope? && log == before + ops
    ensures th.pc.op == ops[|ops| - 1]
    ensures th.stackVars == StackAfter(ops[..|ops| - 1], StackAfter(before, []))
  {
    assert log[..|log| - 1] == before + ops[..|ops| - 1];
    StackAfterAppend(before, ops[..|ops| - 1], []);
  }

  lemma TopOfSum(bottom: seq<Addr>, top: seq<Addr>)
    ensures Top(bottom + top, Min(|top|, |bottom + top|)) == top
  {
  }

  lemma ExitStep(db: Database, sh: Shared, th: Thread, spurious: bool, bottom: seq<Addr>, own: seq<Addr>, a: Addr)
    requires th.pc == At(LeaveScope(|own|), Begin) && th.stackVars == bottom + own
    ensures var (sh', _) := MicroStep(db, sh, th, spurious);
            && (a in own ==> a !in sh'.entries)
            && (a !in own ==> SameEntry(sh.entries, sh'.entries, a))
  {
    TopOfSum(bottom, own);
    ScopeExitRemoves(db, sh, th, spurious, a);
  }

  /**
   In every interleaving: when an activation calls the scope exit, the argument is the number of its own stack
   callbacks, its own addresses lie on top of the stack it started on, and the next step takes exactly those
   addresses out of the map.
   */
  lemma ScopeExitInRun(db: Database, n: nat, actions: seq<Action>, t: nat, before: seq<Op>,
                       prog: Program, sources: seq<Source>, act: Activation, spurious: bool, a: Addr)
    requires Outcome(db, n, actions).Some?
    requires ProgramOf(prog, sources) && ValidActivation(prog, act) && sources[act.func].anchors != []
    requires LeavesScope(prog[act.func], act.visits)
    requires AtScopeExit(Outcome(db, n, actions).value, t, before, ActivationOps(prog, act))
    ensures var s := Outcome(db, n, actions).value;
            var (sh', _) := MicroStep(db, s.shared, s.threads[t], spurious);
            && s.threads[t].pc.op == LeaveScope(|Pushes(act.visits)|)
            && s.threads[t].stackVars == StackAfter(before, []) + Pushes(act.visits)
            && (a in Pushes(act.visits) ==> a !in sh'.entries)
            && (a !in Pushes(act.visits) ==> SameEntry(s.shared.entries, sh'.entries, a))
  {
    var s, ops := Outcome(db, n, actions).value, ActivationOps(prog, act);
    RunKeepsInv(db, n, actions);
    ScopeExitPopsOwn(prog, sources, act, StackAfter(before, []));
    StackAtExit(s.threads[t], s.history.logs[t], s.history.stackPeaks[t], before, ops);
    ExitStep(db, s.shared, s.threads[t], spurious, StackAfter(before, []), Pushes(act.visits), a);
  }
}
