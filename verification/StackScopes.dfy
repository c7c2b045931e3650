/**
 Executions of instrumented functions, and the callbacks they make: whatever path an activation takes, it leaves
 the runtime's stack as it found it.
 */
module StackScopes {
  import opened TypeDatabase
  import opened AllocMap
  import opened AllocationTracking
  import opened StackInstrumentation

  // ----- Executions -----

  /** One run of a function from its entry to a return; the counter's memory starts with any value. */
  datatype Activation = Activation(func: nat, garbage: nat, visits: seq<Visit>)

  datatype Visit = Visit(block: nat, cells: seq<Cell>)

  /** What executing one instruction did: heap and global callbacks, a stack callback, or a nested activation. */
  datatype Cell =
    | Quiet(ops: seq<Op>)
    | Pushed(addr: Addr, typeId: int, count: nat, retAddr: Addr)
    | Nested(activation: Activation)

  type Program = seq<Cfg>

  predicate OffStack(ops: seq<Op>) {
    forall i :: 0 <= i < |ops| ==> ops[i].Free? || (ops[i].Alloc? && ops[i].kind != Stack)
  }

  /** The counter after some instructions, as they change it. */
  function CounterAfter(instrs: seq<Instr>, c: nat): nat {
    if instrs == [] then c else
      var before := CounterAfter(instrs[..|instrs| - 1], c);
      match instrs[|instrs| - 1]
      case InitCounter => 0
      case AddToCounter(n) => n + before
      case _ => before
  }

  /** Callbacks of one instruction when the counter is `c`. */
  function CellOps(prog: Program, instr: Instr, cell: Cell, c: nat): seq<Op>
    decreases cell
  {
    match cell
    case Quiet(ops) => if instr.LeaveCallback? then [LeaveScope(c)] else ops
    case Pushed(addr, typeId, count, retAddr) => [Alloc(Stack, addr, typeId, count, retAddr)]
    case Nested(activation) => ActivationOps(prog, activation)
  }

  function CellsOps(prog: Program, instrs: seq<Instr>, cells: seq<Cell>, c: nat): seq<Op>
    requires |instrs| == |cells|
    decreases cells
  {
    if cells == [] then [] else
      var k := |cells| - 1;
      CellsOps(prog, instrs[..k], cells[..k], c) + CellOps(prog, instrs[k], cells[k], CounterAfter(instrs[..k], c))
  }

  function VisitOps(prog: Program, cfg: Cfg, visit: Visit, c: nat): seq<Op>
    decreases visit
  {
    if visit.block < |cfg| && |visit.cells| == |cfg[visit.block].instrs|
    then CellsOps(prog, cfg[visit.block].instrs, visit.cells, c)
    else []
  }

  function VisitsOps(prog: Program, cfg: Cfg, visits: seq<Visit>, c: nat): seq<Op>
    decreases visits
  {
    if visits == [] then [] else
      VisitOps(prog, cfg, visits[0], c)
      + VisitsOps(prog, cfg, visits[1..],
                  if visits[0].block < |cfg| then CounterAfter(cfg[visits[0].block].instrs, c) else c)
  }

  function ActivationOps(prog: Program, act: Activation): seq<Op>
    decreases act
  {
    if act.func < |prog| then VisitsOps(prog, prog[act.func], act.visits, act.garbage) else []
  }

  /** A jump the terminator allows when the counter is `c`. */
  predicate Edge(term: Terminator, c: nat, next: nat) {
    match term
    case Return => false
    case Branch(succs) => next in succs
    case IfCounterNonZero(t, e) => next == if c != 0 then t else e
  }

  ghost predicate ValidCell(prog: Program, instr: Instr, cell: Cell)
    decreases cell
  {
    match instr
    case Plain(_) => cell.Quiet? && OffStack(cell.ops)
    case Call(_, callee) => cell.Nested? && cell.activation.func == callee && ValidActivation(prog, cell.activation)
    case StackCallback(_) => cell.Pushed?
    case _ => cell == Quiet([])
  }

  ghost predicate ValidCells(prog: Program, instrs: seq<Instr>, cells: seq<Cell>)
    decreases cells
  {
    |instrs| == |cells| && forall i :: 0 <= i < |cells| ==> ValidCell(prog, instrs[i], cells[i])
  }

  ghost predicate ValidVisit(prog: Program, cfg: Cfg, visit: Visit)
    decreases visit
  {
    visit.block < |cfg| && ValidCells(prog, cfg[visit.block].instrs, visit.cells)
  }

  /** A path through the blocks that ends at a return. */
  ghost predicate ValidVisits(prog: Program, cfg: Cfg, visits: seq<Visit>, c: nat)
    decreases visits
  {
    && visits != []
    && ValidVisit(prog, cfg, visits[0])
    && var c' := CounterAfter(cfg[visits[0].block].instrs, c);
       var term := cfg[visits[0].block].term;
       if |visits| == 1 then term.Return?
       else Edge(term, c', visits[1].block) && ValidVisits(prog, cfg, visits[1..], c')
  }

  ghost predicate ValidActivation(prog: Program, act: Activation)
    decreases act
  {
    && act.func < |prog|
    && ValidVisits(prog, prog[act.func], act.visits, act.garbage)
    && act.visits[0].block == 0
  }

  /** What each function was before instrumentation, and where its callbacks went. */
  datatype Source = Source(orig: Cfg, anchors: seq<Anchor>)

  ghost predicate ProgramOf(prog: Program, sources: seq<Source>) {
    |prog| == |sources| && forall f :: 0 <= f < |prog| ==>
      Original(sources[f].orig) && AnchorsOk(sources[f].orig, sources[f].anchors)
      && Instrumented(sources[f].orig, prog[f], sources[f].anchors)
  }

  // ----- Effects on the address stack -----

  /** No scope exit asks for more than there is. */
  predicate NoClamp(ops: seq<Op>, stack: seq<Addr>) {
    ops == [] ||
    (var init, last := ops[..|ops| - 1], ops[|ops| - 1];
     NoClamp(init, stack) && (last.LeaveScope? ==> last.allocaCount <= |StackAfter(init, stack)|))
  }

  /** The callbacks turn `stack` into `after` without the runtime ever reducing a scope count. */
  ghost predicate Turns(ops: seq<Op>, stack: seq<Addr>, after: seq<Addr>) {
    NoClamp(ops, stack) && StackAfter(ops, stack) == after
  }

  lemma {:induction false} TurnsCompose(a: seq<Op>, b: seq<Op>, stack: seq<Addr>, middle: seq<Addr>, after: seq<Addr>)
    requires Turns(a, stack, middle) && Turns(b, middle, after)
    ensures Turns(a + b, stack, after)
    decreases |b|
  {
    if b == [] {
      assert a + b == a;
    } else {
      var init, last := b[..|b| - 1], b[|b| - 1];
      assert (a + b)[..|a + b| - 1] == a + init && (a + b)[|a + b| - 1] == last;
      TurnsCompose(a, init, stack, middle, StackAfter(init, middle));
    }
  }

  lemma {:induction false} OffStackTurns(ops: seq<Op>, stack: seq<Addr>)
    requires OffStack(ops)
    ensures Turns(ops, stack, stack)
    decreases |ops|
  {
    if ops != [] {
      OffStackTurns(ops[..|ops| - 1], stack);
    }
  }

  lemma OneOpTurns(op: Op, stack: seq<Addr>)
    requires op.LeaveScope? ==> op.allocaCount <= |stack|
    ensures Turns([op], stack, StackEffect(op, stack))
  {
    assert [op][..0] == [];
    assert StackAfter([], stack) == stack && NoClamp([], stack);
  }

  // ----- Blocks -----

  /** Addresses the activation itself pushes in a block, nested activations excluded. */
  function OwnAddrs(cells: seq<Cell>): seq<Addr> {
    if cells == [] then [] else
      OwnAddrs(cells[..|cells| - 1]) + match cells[|cells| - 1] case Pushed(addr, _, _, _) => [addr] case _ => []
  }

  function Pushes(visits: seq<Visit>): seq<Addr> {
    if visits == [] then [] else OwnAddrs(visits[0].cells) + Pushes(visits[1..])
  }

  function CallbackCount(instrs: seq<Instr>): nat {
    if instrs == [] then 0 else CallbackCount(instrs[..|instrs| - 1]) + if instrs[|instrs| - 1].StackCallback? then 1 else 0
  }

  predicate NoLeave(instrs: seq<Instr>) {
    forall i :: 0 <= i < |instrs| ==> !instrs[i].LeaveCallback?
  }

  lemma {:induction false} CallbackCountAppend(a: seq<Instr>, b: seq<Instr>)
    ensures CallbackCount(a + b) == CallbackCount(a) + CallbackCount(b)
    decreases |b|
  {
    if b == [] {
      assert a + b == a;
    } else {
      assert (a + b)[..|a + b| - 1] == a + b[..|b| - 1];
      CallbackCountAppend(a, b[..|b| - 1]);
    }
  }

  lemma {:induction false} CounterAppend(a: seq<Instr>, b: seq<Instr>, c: nat)
    ensures CounterAfter(a + b, c) == CounterAfter(b, CounterAfter(a, c))
    decreases |b|
  {
    if b == [] {
      assert a + b == a;
    } else {
      assert (a + b)[..|a + b| - 1] == a + b[..|b| - 1];
      CounterAppend(a, b[..|b| - 1], c);
    }
  }

  predicate Neutral(instrs: seq<Instr>) {
    forall i :: 0 <= i < |instrs| ==> FromProgram(instrs[i]) || instrs[i].StackCallback?
  }

  lemma {:induction false} NeutralCounter(instrs: seq<Instr>, c: nat)
    requires Neutral(instrs)
    ensures CounterAfter(instrs, c) == c
    decreases |instrs|
  {
    if instrs != [] {
      NeutralCounter(instrs[..|instrs| - 1], c);
    }
  }

  lemma {:induction false} ExpandNeutral(instrs: seq<Instr>, anchors: seq<Anchor>, b: nat)
    requires forall i :: 0 <= i < |instrs| ==> FromProgram(instrs[i])
    ensures Neutral(Expand(instrs, anchors, b))
    decreases |instrs|
  {
    if instrs != [] {
      CallbacksAreInserted(anchors, Ref(b, instrs[0].id));
      ExpandNeutral(instrs[1..], anchors, b);
    }
  }

  lemma {:induction false} InsertCounts(instrs: seq<Instr>, id: nat, slot: nat)
    requires Holds(instrs, id)
    ensures CallbackCount(InsertAfter(instrs, id, StackCallback(slot))) == CallbackCount(instrs) + 1
    decreases |instrs|
  {
    var rest := instrs[1..];
    assert instrs == [instrs[0]] + rest;
    CallbackCountAppend([instrs[0]], rest);
    if HasId(instrs[0], id) {
      var pair := [instrs[0], StackCallback(slot)];
      CallbackCountAppend(pair, rest);
      CallbackCountAppend([instrs[0]], [StackCallback(slot)]);
      assert pair == [instrs[0]] + [StackCallback(slot)];
      CallbackCountOne(StackCallback(slot));
    } else {
      var i :| 0 <= i < |instrs| && HasId(instrs[i], id);
      assert HasId(rest[i - 1], id);
      InsertCounts(rest, id, slot);
      CallbackCountAppend([instrs[0]], InsertAfter(rest, id, StackCallback(slot)));
    }
  }

  lemma CallbackCountOne(instr: Instr)
    ensures CallbackCount([instr]) == if instr.StackCallback? then 1 else 0
  {
    assert [instr][..0] == [];
  }

  lemma {:induction false} NoCallbacks(instrs: seq<Instr>)
    requires forall i :: 0 <= i < |instrs| ==> FromProgram(instrs[i])
    ensures CallbackCount(instrs) == 0
    decreases |instrs|
  {
    if instrs != [] {
      NoCallbacks(instrs[..|instrs| - 1]);
    }
  }

  lemma HoldsAppend(front: seq<Instr>, rest: seq<Instr>, id: nat)
    requires Holds(rest, id)
    ensures Holds(front + rest, id)
  {
    var j :| 0 <= j < |rest| && HasId(rest[j], id);
    assert HasId((front + rest)[|front| + j], id);
  }

  lemma {:induction false} ExpandHolds(instrs: seq<Instr>, anchors: seq<Anchor>, b: nat, id: nat)
    requires Holds(instrs, id)
    ensures Holds(Expand(instrs, anchors, b), id)
    decreases |instrs|
  {
    if HasId(instrs[0], id) {
      assert HasId(Expand(instrs, anchors, b)[0], id);
    } else {
      var i :| 0 <= i < |instrs| && HasId(instrs[i], id);
      assert HasId(instrs[1..][i - 1], id);
      ExpandHolds(instrs[1..], anchors, b, id);
      HoldsAppend(ExpandOne(instrs[0], anchors, b), Expand(instrs[1..], anchors, b), id);
    }
  }

  /** A block has as many stack callbacks as the instrumentation has counted for it. */
  lemma {:induction false} ExpandCounts(orig: Cfg, anchors: seq<Anchor>, b: nat)
    requires Original(orig) && AnchorsOk(orig, anchors) && b < |orig|
    ensures CallbackCount(Expand(orig[b].instrs, anchors, b)) == CountIn(anchors, b)
    decreases |anchors|
  {
    if anchors == [] {
      ExpandNothing(orig[b].instrs, b);
      NoCallbacks(orig[b].instrs);
    } else {
      var init, a := anchors[..|anchors| - 1], anchors[|anchors| - 1];
      assert anchors == init + [a] && AnchorOk(orig, a);
      ExpandCounts(orig, init, b);
      if a.ref.block == b {
        InsertExpands(orig[b].instrs, init, a);
        ExpandHolds(orig[b].instrs, init, b, a.ref.id);
        InsertCounts(Expand(orig[b].instrs, init, b), a.ref.id, a.slot);
      } else {
        ExpandIgnores(orig[b].instrs, init, b, a);
      }
    }
  }

  /** The instructions of the program, in their order, are what instrumentation leaves of itself removed. */
  function ProgramPart(instrs: seq<Instr>): seq<Instr> {
    if instrs == [] then [] else
      ProgramPart(instrs[..|instrs| - 1]) + if FromProgram(instrs[|instrs| - 1]) then [instrs[|instrs| - 1]] else []
  }

  lemma {:induction false} ProgramPartAppend(a: seq<Instr>, b: seq<Instr>)
    ensures ProgramPart(a + b) == ProgramPart(a) + ProgramPart(b)
    decreases |b|
  {
    if b == [] {
      assert a + b == a;
    } else {
      assert (a + b)[..|a + b| - 1] == a + b[..|b| - 1];
      ProgramPartAppend(a, b[..|b| - 1]);
    }
  }

  lemma {:induction false} CallbacksHaveNoProgram(callbacks: seq<Instr>)
    requires forall i :: 0 <= i < |callbacks| ==> callbacks[i].StackCallback?
    ensures ProgramPart(callbacks) == []
    decreases |callbacks|
  {
    if callbacks != [] {
      CallbacksHaveNoProgram(callbacks[..|callbacks| - 1]);
    }
  }

  lemma OneKeepsProgram(instr: Instr, anchors: seq<Anchor>, b: nat)
    requires FromProgram(instr)
    ensures ProgramPart(ExpandOne(instr, anchors, b)) == [instr]
  {
    var callbacks := CallbacksFor(anchors, Ref(b, instr.id));
    CallbacksAreInserted(anchors, Ref(b, instr.id));
    CallbacksHaveNoProgram(callbacks);
    ProgramPartAppend([instr], callbacks);
    assert [instr][..0] == [] && ProgramPart([instr]) == [instr];
  }

  /** Instrumentation keeps the program: without the inserted instructions a block is what it was. */
  lemma {:induction false} ExpandKeepsProgram(instrs: seq<Instr>, anchors: seq<Anchor>, b: nat)
    requires forall i :: 0 <= i < |instrs| ==> FromProgram(instrs[i])
    ensures ProgramPart(Expand(instrs, anchors, b)) == instrs
    decreases |instrs|
  {
    if instrs != [] {
      var one, rest := ExpandOne(instrs[0], anchors, b), Expand(instrs[1..], anchors, b);
      OneKeepsProgram(instrs[0], anchors, b);
      ExpandKeepsProgram(instrs[1..], anchors, b);
      ProgramPartAppend(one, rest);
      assert [instrs[0]] + instrs[1..] == instrs;
    }
  }

  // ----- Activations -----

  lemma BodyCallbacks(orig: Cfg, anchors: seq<Anchor>, b: nat)
    requires Original(orig) && AnchorsOk(orig, anchors) && b < |orig|
    ensures CallbackCount(Body(orig, anchors, b)) == CountIn(anchors, b)
  {
    var n := CountIn(anchors, b);
    var pre: seq<Instr> := if b == 0 then [InitCounter] else [];
    var middle := Expand(orig[b].instrs, anchors, b);
    ExpandCounts(orig, anchors, b);
    CallbackCountAppend(pre, middle);
    CallbackCountAppend(pre + middle, if n > 0 then [AddToCounter(n)] else []);
    CallbackCountOne(InitCounter);
    CallbackCountOne(AddToCounter(n));
  }

  lemma CounterOfOne(instr: Instr, c: nat)
    ensures CounterAfter([instr], c)
         == match instr case InitCounter => 0 case AddToCounter(n) => n + c case _ => c
  {
    assert [instr][..0] == [];
  }

  lemma BodyCounter(orig: Cfg, anchors: seq<Anchor>, b: nat, c: nat)
    requires Original(orig) && b < |orig|
    ensures CounterAfter(Body(orig, anchors, b), c) == (if b == 0 then 0 else c) + CountIn(anchors, b)
  {
    var n := CountIn(anchors, b);
    var pre: seq<Instr> := if b == 0 then [InitCounter] else [];
    var middle := Expand(orig[b].instrs, anchors, b);
    ExpandNeutral(orig[b].instrs, anchors, b);
    CounterAppend(pre, middle, c);
    CounterAppend(pre + middle, if n > 0 then [AddToCounter(n)] else [], c);
    CounterOfOne(InitCounter, c);
    NeutralCounter(middle, CounterAfter(pre, c));
    CounterOfOne(AddToCounter(n), CounterAfter(pre, c));
  }

  lemma BodyNoLeave(orig: Cfg, anchors: seq<Anchor>, b: nat)
    requires Original(orig) && b < |orig|
    ensures NoLeave(Body(orig, anchors, b))
  {
    ExpandNeutral(orig[b].instrs, anchors, b);
  }

  lemma BodyFacts(orig: Cfg, anchors: seq<Anchor>, b: nat, c: nat)
    requires Original(orig) && AnchorsOk(orig, anchors) && b < |orig|
    ensures CallbackCount(Body(orig, anchors, b)) == CountIn(anchors, b)
    ensures CounterAfter(Body(orig, anchors, b), c) == (if b == 0 then 0 else c) + CountIn(anchors, b)
    ensures NoLeave(Body(orig, anchors, b))
  {
    BodyCallbacks(orig, anchors, b);
    BodyCounter(orig, anchors, b, c);
    BodyNoLeave(orig, anchors, b);
  }

  lemma CellsSplit(prog: Program, instrs: seq<Instr>, cells: seq<Cell>)
    requires ValidCells(prog, instrs, cells) && cells != []
    ensures ValidCells(prog, instrs[..|cells| - 1], cells[..|cells| - 1])
    ensures ValidCell(prog, instrs[|cells| - 1], cells[|cells| - 1])
  {
  }

  /** A block without scope exit pushes the addresses of its own callbacks, one per callback. */
  lemma {:induction false} CellsTurn(prog: Program, sources: seq<Source>, instrs: seq<Instr>, cells: seq<Cell>, c: nat, stack: seq<Addr>)
    requires ProgramOf(prog, sources) && ValidCells(prog, instrs, cells) && NoLeave(instrs)
    ensures Turns(CellsOps(prog, instrs, cells, c), stack, stack + OwnAddrs(cells))
    ensures |OwnAddrs(cells)| == CallbackCount(instrs)
    decreases cells
  {
    if cells == [] {
      assert stack + [] == stack;
    } else {
      var k := |cells| - 1;
      CellsSplit(prog, instrs, cells);
      CellsTurn(prog, sources, instrs[..k], cells[..k], c, stack);
      var middle := stack + OwnAddrs(cells[..k]);
      var counter := CounterAfter(instrs[..k], c);
      CellTurns(prog, sources, instrs[k], cells[k], counter, middle);
      TurnsCompose(CellsOps(prog, instrs[..k], cells[..k], c), CellOps(prog, instrs[k], cells[k], counter),
                   stack, middle, middle + OwnAddr(cells[k]));
      assert middle + OwnAddr(cells[k]) == stack + OwnAddrs(cells);
    }
  }

  function OwnAddr(cell: Cell): seq<Addr> {
    match cell
    case Pushed(addr, _, _, _) => [addr]
    case _ => []
  }

  lemma {:induction false} CellTurns(prog: Program, sources: seq<Source>, instr: Instr, cell: Cell, c: nat, stack: seq<Addr>)
    requires ProgramOf(prog, sources) && ValidCell(prog, instr, cell) && !instr.LeaveCallback?
    ensures Turns(CellOps(prog, instr, cell, c), stack, stack + OwnAddr(cell))
    ensures |OwnAddr(cell)| == if instr.StackCallback? then 1 else 0
    decreases cell
  {
    assert stack + [] == stack;
    match cell
    case Quiet(ops) => OffStackTurns(ops, stack);
    case Pushed(addr, typeId, count, retAddr) => OneOpTurns(Alloc(Stack, addr, typeId, count, retAddr), stack);
    case Nested(activation) => ActivationBalanced(prog, sources, activation, stack);
  }

  /** Where an activation is: what it has pushed lies on top of `base`, and the counter tells how much. */
  ghost predicate AtBlock(orig: Cfg, cfg: Cfg, b: nat, c: nat, base: seq<Addr>, stack: seq<Addr>) {
    if b == 0 then stack == base
    else if b < |orig| || GuardedExit(cfg, b) then base <= stack && |stack| == |base| + c
    else b < |cfg| && cfg[b] == Block([], Return) && stack == base
  }

  predicate CallsExit(instrs: seq<Instr>) {
    exists i :: 0 <= i < |instrs| && instrs[i].LeaveCallback?
  }

  /** Some block on the path calls the scope exit. */
  predicate LeavesScope(cfg: Cfg, visits: seq<Visit>) {
    visits != [] &&
    ((visits[0].block < |cfg| && CallsExit(cfg[visits[0].block].instrs)) || LeavesScope(cfg, visits[1..]))
  }

  /**
   The rest of an activation ends at `base`. If it calls the scope exit, which it does whenever the activation has
   pushed anything, that is its last callback and pops what the activation has pushed.
   */
  ghost predicate Exits(ops: seq<Op>, stack: seq<Addr>, own: seq<Addr>, base: seq<Addr>, leaves: bool) {
    && base <= stack
    && Turns(ops, stack, base)
    && var total := |stack| - |base| + |own|;
       && (total > 0 ==> leaves)
       && (leaves ==> ops != [] && ops[|ops| - 1] == LeaveScope(total)
                      && StackAfter(ops[..|ops| - 1], stack) == stack + own)
  }

  lemma ExitsAfter(a: seq<Op>, b: seq<Op>, stack: seq<Addr>, middle: seq<Addr>, own: seq<Addr>, rest: seq<Addr>,
                   base: seq<Addr>, leaves: bool)
    requires base <= stack && middle == stack + own && Turns(a, stack, middle) && Exits(b, middle, rest, base, leaves)
    ensures Exits(a + b, stack, own + rest, base, leaves)
  {
    TurnsCompose(a, b, stack, middle, base);
    if leaves {
      var init := b[..|b| - 1];
      assert (a + b)[..|a + b| - 1] == a + init;
      StackAfterAppend(a, init, stack);
      assert middle + rest == stack + (own + rest);
    }
  }

  /** From any block on: the activation comes back to `base`. */
  lemma {:induction false} VisitsExit(prog: Program, sources: seq<Source>, f: nat, visits: seq<Visit>, c: nat, base: seq<Addr>, stack: seq<Addr>)
    requires ProgramOf(prog, sources) && f < |prog| && sources[f].anchors != []
    requires ValidVisits(prog, prog[f], visits, c)
    requires AtBlock(sources[f].orig, prog[f], visits[0].block, c, base, stack)
    ensures Exits(VisitsOps(prog, prog[f], visits, c), stack, Pushes(visits), base, LeavesScope(prog[f], visits))
    decreases visits
  {
    var orig, cfg := sources[f].orig, prog[f];
    var visit, b := visits[0], visits[0].block;
    VisitsStep(prog, cfg, visits, c);
    if b >= |orig| {
      InsertedBlockExits(prog, sources, f, visits, c, base, stack);
    } else if orig[b].term.Return? && !Guarded(orig, sources[f].anchors, b) {
      ReturnBlockExits(prog, sources, f, visit, c, base, stack);
    } else {
      BodyBlockTurns(prog, sources, f, visit, c, base, stack);
      var c' := CounterAfter(cfg[b].instrs, c);
      var middle := stack + OwnAddrs(visit.cells);
      NextBlock(prog, sources, f, b, c', visits[1].block, base, middle);
      VisitsExit(prog, sources, f, visits[1..], c', base, middle);
      ExitsAfter(VisitOps(prog, cfg, visit, c), VisitsOps(prog, cfg, visits[1..], c'),
                 stack, middle, OwnAddrs(visit.cells), Pushes(visits[1..]), base, LeavesScope(cfg, visits[1..]));
    }
  }

  /** Through a block of the original function that does not leave the scope itself; it is not the last one. */
  lemma {:induction false} BodyBlockTurns(prog: Program, sources: seq<Source>, f: nat, visit: Visit, c: nat, base: seq<Addr>, stack: seq<Addr>)
    requires ProgramOf(prog, sources) && f < |prog| && sources[f].anchors != []
    requires ValidVisit(prog, prog[f], visit) && visit.block < |sources[f].orig|
    requires !(sources[f].orig[visit.block].term.Return? && !Guarded(sources[f].orig, sources[f].anchors, visit.block))
    requires AtBlock(sources[f].orig, prog[f], visit.block, c, base, stack)
    ensures !prog[f][visit.block].term.Return? && !CallsExit(prog[f][visit.block].instrs)
    ensures Turns(VisitOps(prog, prog[f], visit, c), stack, stack + OwnAddrs(visit.cells))
    ensures base <= stack <= stack + OwnAddrs(visit.cells)
    ensures |stack + OwnAddrs(visit.cells)| == |base| + CounterAfter(prog[f][visit.block].instrs, c)
    decreases visit, 1
  {
    var orig, anchors, b := sources[f].orig, sources[f].anchors, visit.block;
    assert RewrittenBlock(orig, prog[f], anchors, b);
    BodyFacts(orig, anchors, b, c);
    CellsTurn(prog, sources, prog[f][b].instrs, visit.cells, c, stack);
  }

  /** The last block of an activation with an unguarded exit. */
  lemma {:induction false} ReturnBlockExits(prog: Program, sources: seq<Source>, f: nat, visit: Visit, c: nat, base: seq<Addr>, stack: seq<Addr>)
    requires ProgramOf(prog, sources) && f < |prog| && sources[f].anchors != []
    requires ValidVisit(prog, prog[f], visit) && visit.block < |sources[f].orig|
    requires sources[f].orig[visit.block].term.Return? && !Guarded(sources[f].orig, sources[f].anchors, visit.block)
    requires AtBlock(sources[f].orig, prog[f], visit.block, c, base, stack)
    ensures prog[f][visit.block].term.Return? && CallsExit(prog[f][visit.block].instrs)
    ensures Exits(VisitOps(prog, prog[f], visit, c), stack, OwnAddrs(visit.cells), base, true)
    decreases visit, 1
  {
    var orig, anchors, b := sources[f].orig, sources[f].anchors, visit.block;
    assert RewrittenBlock(orig, prog[f], anchors, b);
    var body, cells := Body(orig, anchors, b), visit.cells;
    BodyFacts(orig, anchors, b, c);
    CellsSplit(prog, body + [LeaveCallback], cells);
    assert (body + [LeaveCallback])[..|body|] == body && (body + [LeaveCallback])[|body|].LeaveCallback?;
    CellsTurn(prog, sources, body, cells[..|body|], c, stack);
    ReturnExits(prog, body, cells, c, base, stack);
  }

  lemma VisitsStep(prog: Program, cfg: Cfg, visits: seq<Visit>, c: nat)
    requires ValidVisits(prog, cfg, visits, c)
    ensures ValidVisit(prog, cfg, visits[0]) && visits[0].block < |cfg|
    ensures |visits[0].cells| == |cfg[visits[0].block].instrs|
    ensures var c' := CounterAfter(cfg[visits[0].block].instrs, c);
            && VisitsOps(prog, cfg, visits, c) == VisitOps(prog, cfg, visits[0], c) + VisitsOps(prog, cfg, visits[1..], c')
            && (if |visits| == 1 then cfg[visits[0].block].term.Return?
                else Edge(cfg[visits[0].block].term, c', visits[1].block) && ValidVisits(prog, cfg, visits[1..], c'))
    ensures |visits| == 1 ==>
              VisitsOps(prog, cfg, visits, c) == VisitOps(prog, cfg, visits[0], c) && Pushes(visits) == OwnAddrs(visits[0].cells)
  {
    assert ValidVisit(prog, cfg, visits[0]);
    assert ValidCells(prog, cfg[visits[0].block].instrs, visits[0].cells);
    if |visits| == 1 {
      assert visits[1..] == [];
      assert VisitOps(prog, cfg, visits[0], c) + [] == VisitOps(prog, cfg, visits[0], c);
      assert OwnAddrs(visits[0].cells) + [] == OwnAddrs(visits[0].cells);
    }
  }

  /** An unguarded return pops exactly the pushes of the activation. */
  lemma ReturnExits(prog: Program, body: seq<Instr>, cells: seq<Cell>, c: nat, base: seq<Addr>, stack: seq<Addr>)
    requires |cells| == |body| + 1 && cells[|body|] == Quiet([])
    requires Turns(CellsOps(prog, body, cells[..|body|], c), stack, stack + OwnAddrs(cells[..|body|]))
    requires base <= stack && |stack| + |OwnAddrs(cells[..|body|])| == |base| + CounterAfter(body, c)
    ensures Exits(CellsOps(prog, body + [LeaveCallback], cells, c), stack, OwnAddrs(cells), base, true)
  {
    var k := |body|;
    var front := CellsOps(prog, body, cells[..k], c);
    var n := CounterAfter(body, c);
    var middle := stack + OwnAddrs(cells[..k]);
    OneOpTurns(LeaveScope(n), middle);
    assert StackEffect(LeaveScope(n), middle) == base;
    TurnsCompose(front, [LeaveScope(n)], stack, middle, base);
    assert (body + [LeaveCallback])[..k] == body;
    assert CellsOps(prog, body + [LeaveCallback], cells, c) == front + [LeaveScope(n)];
    assert (front + [LeaveScope(n)])[..|front|] == front;
    assert OwnAddrs(cells) == OwnAddrs(cells[..k]) + [] == OwnAddrs(cells[..k]);
  }

  /** The jump out of a block leads to a place that fits. */
  lemma NextBlock(prog: Program, sources: seq<Source>, f: nat, b: nat, c: nat, next: nat, base: seq<Addr>, stack: seq<Addr>)
    requires ProgramOf(prog, sources) && f < |prog| && sources[f].anchors != [] && b < |sources[f].orig|
    requires Edge(prog[f][b].term, c, next) && base <= stack && |stack| == |base| + c
    ensures AtBlock(sources[f].orig, prog[f], next, c, base, stack)
  {
    var orig, anchors := sources[f].orig, sources[f].anchors;
    assert RewrittenBlock(orig, prog[f], anchors, b);
    if orig[b].term.Branch? {
      assert next in orig[b].term.succs;
    } else {
      assert c == 0 ==> stack == base;
    }
  }

  /** The two blocks behind a guard. */
  lemma InsertedBlockExits(prog: Program, sources: seq<Source>, f: nat, visits: seq<Visit>, c: nat, base: seq<Addr>, stack: seq<Addr>)
    requires ProgramOf(prog, sources) && f < |prog| && sources[f].anchors != []
    requires ValidVisits(prog, prog[f], visits, c) && visits[0].block >= |sources[f].orig|
    requires AtBlock(sources[f].orig, prog[f], visits[0].block, c, base, stack)
    ensures Exits(VisitsOps(prog, prog[f], visits, c), stack, Pushes(visits), base, LeavesScope(prog[f], visits))
  {
    var cfg, visit, b := prog[f], visits[0], visits[0].block;
    VisitsStep(prog, cfg, visits, c);
    if GuardedExit(cfg, b) {
      var tail := visits[1..];
      CounterOfOne(LeaveCallback, c);
      VisitsStep(prog, cfg, tail, c);
      EmptyVisit(prog, cfg, tail[0], c);
      LeaveVisit(prog, cfg, visit, c);
      OneOpTurns(LeaveScope(c), stack);
      assert StackEffect(LeaveScope(c), stack) == base;
      assert [LeaveScope(c)] + [] == [LeaveScope(c)] && [LeaveScope(c)][..0] == [];
      assert Pushes(tail) == [] && Pushes(visits) == [] + [] == [];
      assert stack + [] == stack;
      assert cfg[b].instrs[0].LeaveCallback?;
    } else {
      EmptyVisit(prog, cfg, visit, c);
      assert cfg[b].instrs == [] && !LeavesScope(cfg, visits[1..]);
    }
  }

  lemma EmptyVisit(prog: Program, cfg: Cfg, visit: Visit, c: nat)
    requires ValidVisit(prog, cfg, visit) && visit.block < |cfg| && cfg[visit.block] == Block([], Return)
    ensures VisitOps(prog, cfg, visit, c) == [] && OwnAddrs(visit.cells) == []
  {
    assert ValidCells(prog, [], visit.cells);
  }

  lemma LeaveVisit(prog: Program, cfg: Cfg, visit: Visit, c: nat)
    requires ValidVisit(prog, cfg, visit) && visit.block < |cfg| && cfg[visit.block].instrs == [LeaveCallback]
    ensures VisitOps(prog, cfg, visit, c) == [LeaveScope(c)] && OwnAddrs(visit.cells) == []
  {
    var cells := visit.cells;
    assert ValidCells(prog, [LeaveCallback], cells);
    assert ValidCell(prog, LeaveCallback, cells[0]);
    assert [LeaveCallback][..0] == [] && cells[..0] == [];
    assert CellsOps(prog, [LeaveCallback], cells, c) == [] + [LeaveScope(c)] == [LeaveScope(c)];
    assert OwnAddrs(cells) == [] + [] == [];
  }

  /** A function without tracked variables makes no stack callbacks of its own. */
  lemma {:induction false} PlainVisits(prog: Program, sources: seq<Source>, f: nat, visits: seq<Visit>, c: nat, stack: seq<Addr>)
    requires ProgramOf(prog, sources) && f < |prog| && sources[f].anchors == []
    requires ValidVisits(prog, prog[f], visits, c)
    ensures Turns(VisitsOps(prog, prog[f], visits, c), stack, stack)
    decreases visits
  {
    var cfg, visit := prog[f], visits[0];
    var instrs := cfg[visit.block].instrs;
    VisitsStep(prog, cfg, visits, c);
    NoCallbacks(instrs);
    CellsTurn(prog, sources, instrs, visit.cells, c, stack);
    assert stack + OwnAddrs(visit.cells) == stack;
    if |visits| > 1 {
      var c' := CounterAfter(instrs, c);
      PlainVisits(prog, sources, f, visits[1..], c', stack);
      TurnsCompose(VisitOps(prog, cfg, visit, c), VisitsOps(prog, cfg, visits[1..], c'), stack, stack, stack);
    }
  }

  /** Every activation, with all activations inside it, leaves the address stack as it was; no count is ever too large. */
  lemma {:induction false} ActivationBalanced(prog: Program, sources: seq<Source>, act: Activation, stack: seq<Addr>)
    requires ProgramOf(prog, sources) && ValidActivation(prog, act)
    ensures Turns(ActivationOps(prog, act), stack, stack)
    decreases act
  {
    if sources[act.func].anchors == [] {
      PlainVisits(prog, sources, act.func, act.visits, act.garbage, stack);
    } else {
      VisitsExit(prog, sources, act.func, act.visits, act.garbage, stack, stack);
    }
  }

  /**
   The scope exit of an activation gets the number of its own stack callbacks, zero included, and pops exactly their
   addresses; an activation that has pushed anything calls it.
   */
  lemma ScopeExitPopsOwn(prog: Program, sources: seq<Source>, act: Activation, stack: seq<Addr>)
    requires ProgramOf(prog, sources) && ValidActivation(prog, act) && sources[act.func].anchors != []
    ensures Pushes(act.visits) != [] ==> LeavesScope(prog[act.func], act.visits)
    ensures LeavesScope(prog[act.func], act.visits) ==>
              var ops := ActivationOps(prog, act);
              && ops != [] && ops[|ops| - 1] == LeaveScope(|Pushes(act.visits)|)
              && StackAfter(ops[..|ops| - 1], stack) == stack + Pushes(act.visits)
  {
    VisitsExit(prog, sources, act.func, act.visits, act.garbage, stack, stack);
  }

  /**
   In every interleaving with other threads: once the callbacks of an activation have run, its thread's stack and
   counters are those it had before.
   */
  lemma RuntimeStackRestored(db: Database, n: nat, actions: seq<Action>, t: nat, before: seq<Op>,
                             prog: Program, sources: seq<Source>, act: Activation)
    requires Outcome(db, n, actions).Some? && t < n
    requires ProgramOf(prog, sources) && ValidActivation(prog, act)
    ensures var s := Outcome(db, n, actions).value;
            |s.threads| == n == |s.history.logs| &&
            (s.threads[t].pc.Idle? && s.history.logs[t] == before + ActivationOps(prog, act) ==>
              && s.threads[t].stackVars == StackAfter(before, [])
              && s.threads[t].curStackAllocs == |StackAfter(before, [])|)
  {
    ThreadStackTold(db, n, actions, t);
    StackAfterAppend(before, ActivationOps(prog, act), []);
    ActivationBalanced(prog, sources, act, StackAfter(before, []));
  }
}
