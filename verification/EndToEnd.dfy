/** Compiler, callbacks and queries together: what a query answers about an object that a callback has recorded. */
module EndToEnd {
  import opened TypeDatabase
  import opened AllocMap
  import opened TypeResolution
  import opened TypeGen
  import opened LayoutPreserved
  import Tracking = AllocationTracking
  import Recorded = RecordedAllocations

  /** Objects of a registered type were recorded by the k-th callback of thread `t`, and that callback is over. */
  ghost predicate RecordsObjects(m: Manager, ty: Type, db: Database, n: nat, first: seq<Tracking.Action>,
                                 later: seq<Tracking.Action>, t: nat, k: nat, op: Tracking.Op)
    requires m.db.Sound()
  {
    && op.Alloc? && op.addr != NULL && op.typeId == IdOf(m, ty)
    && Recorded.Enters(db, n, first, t, k, op)
    && Tracking.Outcome(db, n, first + later).Some?
    && Recorded.OnlyTouchedBy(db, n, first, later, op.addr, t, k)
    && var s := Tracking.Outcome(db, n, first + later).value;
       t < |s.threads| && s.threads[t].pc.Idle?
  }

  /**
   Types registered over any number of translation units, callbacks of any number of threads in any interleaving:
   as long as the allocation is not overwritten, freed or popped and no base lies inside another allocation, a
   query for an address in it answers with what the LLVM type has at that byte.
   */
  lemma QueryAfterCallback(units: seq<seq<Type>>, ty: Type, n: nat, first: seq<Tracking.Action>,
                           later: seq<Tracking.Action>, t: nat, k: nat, op: Tracking.Op, addr: Addr, r: Answer)
    requires WellTyped(Concat(units)) && ty in Concat(units) && Supported(ty) && !ty.Array?
    requires var m := RegisterUnits(EMPTY_MANAGER, units);
             RecordsObjects(m, ty, LoadDatabase(Store(m)), n, first, later, t, k, op)
    requires op.addr <= addr < op.addr + op.count * SizeOf(ty)
    ensures var m := RegisterUnits(EMPTY_MANAGER, units);
            var db := LoadDatabase(Store(m));
            var entries := Tracking.Outcome(db, n, first + later).value.shared.entries;
            db.WellFormed() &&
            (BasesNotInside(db, entries) && QueryAnswers(db, entries, addr, r) ==>
               r == AnswerOf(Label(m, Run(ty, op.count, Element(ty))[addr - op.addr])))
  {
    var m := RegisterUnits(EMPTY_MANAGER, units);
    var db := LoadDatabase(Store(m));
    Recorded.CompletedCallbackRecords(db, n, first, later, t, k, op);
    var entries := Tracking.Outcome(db, n, first + later).value.shared.entries;
    QueryAnswersType(units, ty, op.count, entries, op.addr, addr, r);
  }
}
