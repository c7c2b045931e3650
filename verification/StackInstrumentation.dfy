/**
 Instrumentation of stack variables (MemOpInstrumentation::instrumentStack, StackCounter::addStackHandling): a
 rewrite of a control-flow graph that inserts callbacks, a counter and calls of the scope-exit callback.
 */
module StackInstrumentation {

  /** Instructions of the program carry an id; the other ones are inserted. */
  datatype Instr =
    | Plain(id: nat)
    | Call(id: nat, callee: nat)
    | StackCallback(slot: nat)
    | InitCounter
    | AddToCounter(n: nat)
    | LeaveCallback

  /** A return, a jump of the program, or the inserted test of the counter. */
  datatype Terminator = Return | Branch(succs: seq<nat>) | IfCounterNonZero(thenBlock: nat, elseBlock: nat)

  datatype Block = Block(instrs: seq<Instr>, term: Terminator)

  /** Blocks by number; block 0 is the entry. */
  type Cfg = seq<Block>

  /** An instruction of the program. */
  datatype Ref = Ref(block: nat, id: nat)

  /** A stack variable with its alloca and its lifetime-start calls. */
  datatype StackData = StackData(slot: nat, alloca: Ref, lifetimeStarts: seq<Ref>)

  /** The callback for `slot` goes right behind the instruction. */
  datatype Anchor = Anchor(ref: Ref, slot: nat)

  predicate FromProgram(instr: Instr) {
    instr.Plain? || instr.Call?
  }

  predicate HasId(instr: Instr, id: nat) {
    FromProgram(instr) && instr.id == id
  }

  predicate Holds(instrs: seq<Instr>, id: nat) {
    exists i :: 0 <= i < |instrs| && HasId(instrs[i], id)
  }

  predicate DistinctIds(instrs: seq<Instr>) {
    forall i, j :: 0 <= i < j < |instrs| && FromProgram(instrs[i]) && FromProgram(instrs[j]) ==> instrs[i].id != instrs[j].id
  }

  /** A function before instrumentation; as in LLVM, nothing jumps to the entry block. */
  ghost predicate Original(cfg: Cfg) {
    && cfg != []
    && forall b :: 0 <= b < |cfg| ==>
         && DistinctIds(cfg[b].instrs)
         && (forall i :: 0 <= i < |cfg[b].instrs| ==> FromProgram(cfg[b].instrs[i]))
         && (cfg[b].term.Return? || (cfg[b].term.Branch? && forall s :: s in cfg[b].term.succs ==> 0 < s < |cfg|))
  }

  function Successors(term: Terminator): seq<nat> {
    match term
    case Return => []
    case Branch(succs) => succs
    case IfCounterNonZero(t, e) => [t, e]
  }

  // ----- Where the callbacks go -----

  function AnchorsOf(data: StackData, instrumentLifetime: bool): seq<Anchor> {
    if data.lifetimeStarts == [] || !instrumentLifetime then [Anchor(data.alloca, data.slot)]
    else seq(|data.lifetimeStarts|, i requires 0 <= i < |data.lifetimeStarts| => Anchor(data.lifetimeStarts[i], data.slot))
  }

  function Anchors(stack: seq<StackData>, instrumentLifetime: bool): seq<Anchor> {
    if stack == [] then []
    else Anchors(stack[..|stack| - 1], instrumentLifetime) + AnchorsOf(stack[|stack| - 1], instrumentLifetime)
  }

  /** The variable gets its callback there: at its lifetime starts if it has any and they count, else at its alloca. */
  ghost predicate TracksAt(data: StackData, instrumentLifetime: bool, a: Anchor) {
    && a.slot == data.slot
    && if instrumentLifetime && data.lifetimeStarts != [] then a.ref in data.lifetimeStarts else a.ref == data.alloca
  }

  lemma AnchorsOfMeaning(data: StackData, instrumentLifetime: bool, a: Anchor)
    ensures a in AnchorsOf(data, instrumentLifetime) <==> TracksAt(data, instrumentLifetime, a)
  {
    if TracksAt(data, instrumentLifetime, a) && instrumentLifetime && data.lifetimeStarts != [] {
      var i :| 0 <= i < |data.lifetimeStarts| && data.lifetimeStarts[i] == a.ref;
      assert AnchorsOf(data, instrumentLifetime)[i] == a;
    }
  }

  lemma {:induction false} AnchorsMeaning(stack: seq<StackData>, instrumentLifetime: bool, a: Anchor)
    ensures a in Anchors(stack, instrumentLifetime)
       <==> exists i :: 0 <= i < |stack| && TracksAt(stack[i], instrumentLifetime, a)
    decreases |stack|
  {
    if stack != [] {
      var n := |stack| - 1;
      AnchorsMeaning(stack[..n], instrumentLifetime, a);
      AnchorsOfMeaning(stack[n], instrumentLifetime, a);
      assert forall i :: 0 <= i < n ==> stack[..n][i] == stack[i];
    }
  }

  /** How often the variable is to get its callback behind the instruction. */
  function TimesTracked(data: StackData, instrumentLifetime: bool, ref: Ref): nat {
    if instrumentLifetime && data.lifetimeStarts != [] then multiset(data.lifetimeStarts)[ref]
    else if ref == data.alloca then 1 else 0
  }

  /** How many callbacks for `slot` belong behind the instruction, and how many there are in all. */
  function TimesAt(stack: seq<StackData>, instrumentLifetime: bool, ref: Ref, slot: nat): nat {
    if stack == [] then 0 else
      var data := stack[|stack| - 1];
      TimesAt(stack[..|stack| - 1], instrumentLifetime, ref, slot)
      + if data.slot == slot then TimesTracked(data, instrumentLifetime, ref) else 0
  }

  function CallbackTotal(stack: seq<StackData>, instrumentLifetime: bool): nat {
    if stack == [] then 0 else
      var data := stack[|stack| - 1];
      CallbackTotal(stack[..|stack| - 1], instrumentLifetime)
      + if instrumentLifetime && data.lifetimeStarts != [] then |data.lifetimeStarts| else 1
  }

  function StartAnchors(starts: seq<Ref>, slot: nat): seq<Anchor> {
    seq(|starts|, i requires 0 <= i < |starts| => Anchor(starts[i], slot))
  }

  lemma {:induction false} StartsCounted(starts: seq<Ref>, slot: nat, a: Anchor)
    ensures multiset(StartAnchors(starts, slot))[a] == if a.slot == slot then multiset(starts)[a.ref] else 0
    decreases |starts|
  {
    if starts == [] {
      assert StartAnchors(starts, slot) == [];
    } else {
      var init, last := starts[..|starts| - 1], starts[|starts| - 1];
      StartsCounted(init, slot, a);
      assert starts == init + [last];
      assert StartAnchors(starts, slot) == StartAnchors(init, slot) + [Anchor(last, slot)];
    }
  }

  lemma AnchorsOfCounted(data: StackData, instrumentLifetime: bool, a: Anchor)
    ensures multiset(AnchorsOf(data, instrumentLifetime))[a]
         == if a.slot == data.slot then TimesTracked(data, instrumentLifetime, a.ref) else 0
    ensures |AnchorsOf(data, instrumentLifetime)|
         == if instrumentLifetime && data.lifetimeStarts != [] then |data.lifetimeStarts| else 1
  {
    if instrumentLifetime && data.lifetimeStarts != [] {
      StartsCounted(data.lifetimeStarts, data.slot, a);
      assert AnchorsOf(data, instrumentLifetime) == StartAnchors(data.lifetimeStarts, data.slot);
    }
  }

  /** Each variable is anchored once at its alloca, or once for each of its lifetime starts, and nowhere else. */
  lemma {:induction false} AnchorsCounted(stack: seq<StackData>, instrumentLifetime: bool, a: Anchor)
    ensures multiset(Anchors(stack, instrumentLifetime))[a] == TimesAt(stack, instrumentLifetime, a.ref, a.slot)
    ensures |Anchors(stack, instrumentLifetime)| == CallbackTotal(stack, instrumentLifetime)
    decreases |stack|
  {
    if stack != [] {
      AnchorsCounted(stack[..|stack| - 1], instrumentLifetime, a);
      AnchorsOfCounted(stack[|stack| - 1], instrumentLifetime, a);
    }
  }

  ghost predicate AnchorOk(cfg: Cfg, a: Anchor) {
    a.ref.block < |cfg| && Holds(cfg[a.ref.block].instrs, a.ref.id)
  }

  ghost predicate AnchorsOk(cfg: Cfg, anchors: seq<Anchor>) {
    forall a :: a in anchors ==> AnchorOk(cfg, a)
  }

  function CountIn(anchors: seq<Anchor>, b: nat): nat {
    if anchors == [] then 0
    else CountIn(anchors[..|anchors| - 1], b) + if anchors[|anchors| - 1].ref.block == b then 1 else 0
  }

  /** The callbacks behind one instruction: the one inserted last comes first. */
  function CallbacksFor(anchors: seq<Anchor>, ref: Ref): seq<Instr> {
    if anchors == [] then [] else
      var last := anchors[|anchors| - 1];
      (if last.ref == ref then [StackCallback(last.slot)] else []) + CallbacksFor(anchors[..|anchors| - 1], ref)
  }

  /** The instructions of block `b`, each followed by its callbacks. */
  function Expand(instrs: seq<Instr>, anchors: seq<Anchor>, b: nat): seq<Instr> {
    if instrs == [] then [] else ExpandOne(instrs[0], anchors, b) + Expand(instrs[1..], anchors, b)
  }

  function ExpandOne(instr: Instr, anchors: seq<Anchor>, b: nat): seq<Instr> {
    [instr] + if FromProgram(instr) then CallbacksFor(anchors, Ref(b, instr.id)) else []
  }

  /** The callbacks behind an instruction, by variable. */
  lemma {:induction false} CallbacksCounted(anchors: seq<Anchor>, ref: Ref, slot: nat)
    ensures multiset(CallbacksFor(anchors, ref))[StackCallback(slot)] == multiset(anchors)[Anchor(ref, slot)]
    decreases |anchors|
  {
    if anchors != [] {
      var init, last := anchors[..|anchors| - 1], anchors[|anchors| - 1];
      assert anchors == init + [last];
      CallbacksCounted(init, ref, slot);
    }
  }

  lemma CallbacksTracked(stack: seq<StackData>, instrumentLifetime: bool, ref: Ref, slot: nat)
    ensures multiset(CallbacksFor(Anchors(stack, instrumentLifetime), ref))[StackCallback(slot)]
         == TimesAt(stack, instrumentLifetime, ref, slot)
  {
    CallbacksCounted(Anchors(stack, instrumentLifetime), ref, slot);
    AnchorsCounted(stack, instrumentLifetime, Anchor(ref, slot));
  }

  /** IRBuilder at getNextNode: a new instruction right behind the one with the id. */
  function InsertAfter(instrs: seq<Instr>, id: nat, instr: Instr): seq<Instr> {
    if instrs == [] then []
    else if HasId(instrs[0], id) then [instrs[0], instr] + instrs[1..]
    else [instrs[0]] + InsertAfter(instrs[1..], id, instr)
  }

  /** The new instruction stands right behind the first one with the id, and nothing else moves. */
  lemma {:induction false} InsertAfterMeaning(instrs: seq<Instr>, id: nat, instr: Instr, i: nat)
    requires i < |instrs| && HasId(instrs[i], id) && forall j :: 0 <= j < i ==> !HasId(instrs[j], id)
    ensures InsertAfter(instrs, id, instr) == instrs[..i + 1] + [instr] + instrs[i + 1..]
    decreases i
  {
    if i > 0 {
      InsertAfterMeaning(instrs[1..], id, instr, i - 1);
      assert instrs[..i + 1] == [instrs[0]] + instrs[1..][..i];
    } else {
      assert [instrs[0], instr] == instrs[..1] + [instr];
    }
  }

  lemma {:induction false} InsertPastInserted(front: seq<Instr>, rest: seq<Instr>, id: nat, instr: Instr)
    requires forall i :: 0 <= i < |front| ==> !HasId(front[i], id)
    ensures InsertAfter(front + rest, id, instr) == front + InsertAfter(rest, id, instr)
    decreases |front|
  {
    if front == [] {
      assert front + rest == rest;
    } else {
      assert (front + rest)[1..] == front[1..] + rest;
      InsertPastInserted(front[1..], rest, id, instr);
    }
  }

  lemma {:induction false} CallbacksAreInserted(anchors: seq<Anchor>, ref: Ref)
    ensures forall i :: 0 <= i < |CallbacksFor(anchors, ref)| ==> CallbacksFor(anchors, ref)[i].StackCallback?
    decreases |anchors|
  {
    if anchors != [] {
      CallbacksAreInserted(anchors[..|anchors| - 1], ref);
    }
  }

  lemma CallbacksAppend(anchors: seq<Anchor>, ref: Ref, a: Anchor)
    ensures CallbacksFor(anchors + [a], ref)
         == (if a.ref == ref then [StackCallback(a.slot)] else []) + CallbacksFor(anchors, ref)
  {
    assert (anchors + [a])[..|anchors|] == anchors;
  }

  lemma ExpandOneAppends(instr: Instr, anchors: seq<Anchor>, a: Anchor)
    requires HasId(instr, a.ref.id)
    ensures ExpandOne(instr, anchors + [a], a.ref.block)
         == [instr, StackCallback(a.slot)] + ExpandOne(instr, anchors, a.ref.block)[1..]
  {
    var callbacks := CallbacksFor(anchors, a.ref);
    CallbacksAppend(anchors, a.ref, a);
    assert ExpandOne(instr, anchors, a.ref.block) == [instr] + callbacks;
    assert ([instr] + callbacks)[1..] == callbacks;
    assert [instr] + ([StackCallback(a.slot)] + callbacks) == [instr, StackCallback(a.slot)] + callbacks;
  }

  lemma ExpandOneIgnores(instr: Instr, anchors: seq<Anchor>, b: nat, a: Anchor)
    requires a.ref.block != b || !HasId(instr, a.ref.id)
    ensures ExpandOne(instr, anchors + [a], b) == ExpandOne(instr, anchors, b)
  {
    if FromProgram(instr) {
      CallbacksAppend(anchors, Ref(b, instr.id), a);
      assert [] + CallbacksFor(anchors, Ref(b, instr.id)) == CallbacksFor(anchors, Ref(b, instr.id));
    }
  }

  lemma AppendNext<T>(front: seq<T>, s: seq<T>, j: nat)
    requires j < |s|
    ensures front + s[..j] + [s[j]] == front + s[..j + 1]
  {
  }

  lemma {:induction false} ExpandIgnores(instrs: seq<Instr>, anchors: seq<Anchor>, b: nat, a: Anchor)
    requires a.ref.block != b || !Holds(instrs, a.ref.id)
    ensures Expand(instrs, anchors + [a], b) == Expand(instrs, anchors, b)
    decreases |instrs|
  {
    if instrs != [] {
      assert !Holds(instrs[1..], a.ref.id) || a.ref.block != b by {
        if i :| 0 <= i < |instrs[1..]| && HasId(instrs[1..][i], a.ref.id) { assert HasId(instrs[i + 1], a.ref.id); }
      }
      ExpandIgnores(instrs[1..], anchors, b, a);
      assert HasId(instrs[0], a.ref.id) ==> a.ref.block != b;
      ExpandOneIgnores(instrs[0], anchors, b, a);
    }
  }

  lemma InsertAtHead(instrs: seq<Instr>, id: nat, instr: Instr)
    requires instrs != [] && HasId(instrs[0], id)
    ensures InsertAfter(instrs, id, instr) == [instrs[0], instr] + instrs[1..]
  {
  }

  lemma Regroup<T>(head: T, front: seq<T>, tail: seq<T>, rest: seq<T>)
    ensures ([head] + tail + rest)[0] == head
    ensures front + ([head] + tail + rest)[1..] == front + tail + rest
  {
    assert ([head] + tail + rest)[1..] == tail + rest;
    assert front + (tail + rest) == front + tail + rest;
  }

  /** Insertion behind the first instruction. */
  lemma InsertIntoOne(instr: Instr, anchors: seq<Anchor>, a: Anchor, rest: seq<Instr>)
    requires HasId(instr, a.ref.id)
    ensures InsertAfter(ExpandOne(instr, anchors, a.ref.block) + rest, a.ref.id, StackCallback(a.slot))
         == ExpandOne(instr, anchors + [a], a.ref.block) + rest
  {
    var callbacks := CallbacksFor(anchors, Ref(a.ref.block, instr.id));
    var all := [instr] + callbacks + rest;
    ExpandOneAppends(instr, anchors, a);
    assert ([instr] + callbacks)[1..] == callbacks;
    Regroup(instr, [instr, StackCallback(a.slot)], callbacks, rest);
    InsertAtHead(all, a.ref.id, StackCallback(a.slot));
  }

  /** Insertion past the first instruction and its callbacks. */
  lemma InsertPastOne(instr: Instr, anchors: seq<Anchor>, a: Anchor, rest: seq<Instr>)
    requires FromProgram(instr) && !HasId(instr, a.ref.id)
    ensures InsertAfter(ExpandOne(instr, anchors, a.ref.block) + rest, a.ref.id, StackCallback(a.slot))
         == ExpandOne(instr, anchors + [a], a.ref.block) + InsertAfter(rest, a.ref.id, StackCallback(a.slot))
  {
    var one := ExpandOne(instr, anchors, a.ref.block);
    ExpandOneIgnores(instr, anchors, a.ref.block, a);
    CallbacksAreInserted(anchors, Ref(a.ref.block, instr.id));
    assert forall i :: 0 <= i < |one| ==> !HasId(one[i], a.ref.id);
    InsertPastInserted(one, rest, a.ref.id, StackCallback(a.slot));
  }

  /** Inserting callbacks one by one gives each instruction the run of its callbacks. */
  lemma {:induction false} InsertExpands(instrs: seq<Instr>, anchors: seq<Anchor>, a: Anchor)
    requires DistinctIds(instrs) && (forall i :: 0 <= i < |instrs| ==> FromProgram(instrs[i]))
    requires Holds(instrs, a.ref.id)
    ensures InsertAfter(Expand(instrs, anchors, a.ref.block), a.ref.id, StackCallback(a.slot))
         == Expand(instrs, anchors + [a], a.ref.block)
    decreases |instrs|
  {
    var rest := Expand(instrs[1..], anchors, a.ref.block);
    if HasId(instrs[0], a.ref.id) {
      InsertIntoOne(instrs[0], anchors, a, rest);
      ExpandIgnores(instrs[1..], anchors, a.ref.block, a);
    } else {
      assert Holds(instrs[1..], a.ref.id) by {
        var i :| 0 <= i < |instrs| && HasId(instrs[i], a.ref.id);
        assert HasId(instrs[1..][i - 1], a.ref.id);
      }
      InsertPastOne(instrs[0], anchors, a, rest);
      InsertExpands(instrs[1..], anchors, a);
    }
  }

  // ----- The rewritten function -----

  /** Whether the scope exit of return block `b` is guarded: every predecessor counts some callback. */
  ghost predicate Guarded(cfg: Cfg, anchors: seq<Anchor>, b: nat) {
    forall p :: 0 <= p < |cfg| && b in Successors(cfg[p].term) ==> CountIn(anchors, p) > 0
  }

  /** Initialisation in the entry block, the program with its callbacks, and the count at the end. */
  function Body(cfg: Cfg, anchors: seq<Anchor>, b: nat): seq<Instr>
    requires b < |cfg|
  {
    (if b == 0 then [InitCounter] else [])
    + Expand(cfg[b].instrs, anchors, b)
    + (if CountIn(anchors, b) > 0 then [AddToCounter(CountIn(anchors, b))] else [])
  }

  /** Block `t` leaves the scope and block t + 1 returns. */
  ghost predicate GuardedExit(cfg: Cfg, t: nat) {
    t + 1 < |cfg| && cfg[t] == Block([LeaveCallback], Branch([t + 1])) && cfg[t + 1] == Block([], Return)
  }

  ghost predicate RewrittenBlock(orig: Cfg, cfg: Cfg, anchors: seq<Anchor>, b: nat)
    requires b < |orig| <= |cfg|
  {
    if !orig[b].term.Return? then
      cfg[b] == Block(Body(orig, anchors, b), orig[b].term)
    else if Guarded(orig, anchors, b) then
      && cfg[b].instrs == Body(orig, anchors, b)
      && cfg[b].term.IfCounterNonZero?
      && cfg[b].term.elseBlock == cfg[b].term.thenBlock + 1
      && |orig| <= cfg[b].term.thenBlock
      && GuardedExit(cfg, cfg[b].term.thenBlock)
    else
      cfg[b] == Block(Body(orig, anchors, b) + [LeaveCallback], Return)
  }

  ghost predicate Rewritten(orig: Cfg, cfg: Cfg, anchors: seq<Anchor>) {
    && |orig| <= |cfg|
    && forall b :: 0 <= b < |orig| ==> RewrittenBlock(orig, cfg, anchors, b)
  }

  /** What instrumentStack makes of a function: nothing if there is nothing to track. */
  ghost predicate Instrumented(orig: Cfg, cfg: Cfg, anchors: seq<Anchor>) {
    if anchors == [] then cfg == orig else Rewritten(orig, cfg, anchors)
  }

  // ----- The rewrite in place -----

  class Function {
    var blocks: Cfg

    constructor (blocks: Cfg)
      ensures this.blocks == blocks
    {
      this.blocks := blocks;
    }
  }

  type StackOpCounter = map<nat, nat>

  /** allocCounts holds the blocks with callbacks and their number. */
  ghost predicate CountsOf(counts: StackOpCounter, anchors: seq<Anchor>) {
    forall b :: (b in counts <==> CountIn(anchors, b) > 0) && (b in counts ==> counts[b] == CountIn(anchors, b))
  }

  ghost predicate Expanded(orig: Cfg, cfg: Cfg, anchors: seq<Anchor>) {
    |cfg| == |orig| && forall b :: 0 <= b < |orig| ==>
      cfg[b] == Block(Expand(orig[b].instrs, anchors, b), orig[b].term)
  }

  lemma {:induction false} ExpandNothing(instrs: seq<Instr>, b: nat)
    ensures Expand(instrs, [], b) == instrs
    decreases |instrs|
  {
    if instrs != [] {
      ExpandNothing(instrs[1..], b);
    }
  }

  lemma {:induction false} AnchorsAppend(anchors: seq<Anchor>, a: Anchor, b: nat)
    ensures CountIn(anchors + [a], b) == CountIn(anchors, b) + if a.ref.block == b then 1 else 0
  {
    assert (anchors + [a])[..|anchors|] == anchors;
  }

  /** One insertion: the callback behind its anchor, and the count of the block. */
  method InstrumentAnchor(f: Function, ghost orig: Cfg, ghost done: seq<Anchor>, a: Anchor, counts: StackOpCounter)
    returns (counts': StackOpCounter)
    requires Original(orig) && Expanded(orig, f.blocks, done) && AnchorOk(orig, a) && CountsOf(counts, done)
    modifies f
    ensures Expanded(orig, f.blocks, done + [a]) && CountsOf(counts', done + [a])
  {
    var b := a.ref.block;
    InsertExpands(orig[b].instrs, done, a);
    forall c | 0 <= c < |orig| && c != b ensures Expand(orig[c].instrs, done + [a], c) == Expand(orig[c].instrs, done, c) {
      ExpandIgnores(orig[c].instrs, done, c, a);
    }
    forall c ensures CountIn(done + [a], c) == CountIn(done, c) + if c == b then 1 else 0 {
      AnchorsAppend(done, a, c);
    }
    var block := f.blocks[b];
    f.blocks := f.blocks[b := block.(instrs := InsertAfter(block.instrs, a.ref.id, StackCallback(a.slot)))];
    counts' := counts[b := (if b in counts then counts[b] else 0) + 1];
  }

  /** All callbacks of one stack variable. */
  method InstrumentData(f: Function, ghost orig: Cfg, ghost done: seq<Anchor>, anchors: seq<Anchor>, counts: StackOpCounter)
    returns (counts': StackOpCounter)
    requires Original(orig) && Expanded(orig, f.blocks, done) && AnchorsOk(orig, anchors) && CountsOf(counts, done)
    modifies f
    ensures Expanded(orig, f.blocks, done + anchors) && CountsOf(counts', done + anchors)
  {
    counts' := counts;
    ghost var soFar := done;
    for j := 0 to |anchors|
      invariant soFar == done + anchors[..j]
      invariant Expanded(orig, f.blocks, soFar) && CountsOf(counts', soFar)
    {
      assert AnchorOk(orig, anchors[j]);
      counts' := InstrumentAnchor(f, orig, soFar, anchors[j], counts');
      soFar := soFar + [anchors[j]];
      AppendNext(done, anchors, j);
    }
    assert anchors[..|anchors|] == anchors;
  }

  method InstrumentStack(f: Function, stack: seq<StackData>, instrumentLifetime: bool) returns (counter: nat)
    requires Original(f.blocks) && AnchorsOk(f.blocks, Anchors(stack, instrumentLifetime))
    modifies f
    ensures counter == CallbackTotal(stack, instrumentLifetime)
    ensures forall ref, slot :: multiset(CallbacksFor(Anchors(stack, instrumentLifetime), ref))[StackCallback(slot)]
                             == TimesAt(stack, instrumentLifetime, ref, slot)
    ensures Instrumented(old(f.blocks), f.blocks, Anchors(stack, instrumentLifetime))
  {
    counter := 0;
    ghost var orig := f.blocks;
    var allocCounts: StackOpCounter := map[];
    ghost var done: seq<Anchor> := [];
    NothingExpanded(orig);
    for i := 0 to |stack|
      invariant done == Anchors(stack[..i], instrumentLifetime) && counter == |done|
      invariant Expanded(orig, f.blocks, done) && CountsOf(allocCounts, done)
    {
      var anchors := AnchorsOf(stack[i], instrumentLifetime);
      AnchorsUpTo(stack, instrumentLifetime, i + 1);
      assert stack[..i + 1][..i] == stack[..i];
      allocCounts := InstrumentData(f, orig, done, anchors, allocCounts);
      counter := counter + |anchors|;
      done := done + anchors;
    }
    assert stack[..|stack|] == stack;
    forall ref, slot {
      CallbacksTracked(stack, instrumentLifetime, ref, slot);
    }
    AnchorsCounted(stack, instrumentLifetime, Anchor(Ref(0, 0), 0));
    CountsEmpty(allocCounts, done);
    if allocCounts != map[] {
      CountsInRange(orig, allocCounts, done);
      AddStackHandling(f, allocCounts, orig, done);
    } else {
      NothingExpanded(orig);
      assert f.blocks == orig;
    }
  }

  lemma NothingExpanded(orig: Cfg)
    ensures Expanded(orig, orig, [])
    ensures forall cfg :: Expanded(orig, cfg, []) ==> cfg == orig
  {
    forall b | 0 <= b < |orig| ensures Expand(orig[b].instrs, [], b) == orig[b].instrs {
      ExpandNothing(orig[b].instrs, b);
    }
  }

  lemma CountsEmpty(counts: StackOpCounter, anchors: seq<Anchor>)
    requires CountsOf(counts, anchors)
    ensures counts == map[] <==> anchors == []
  {
    if anchors != [] {
      var b := anchors[|anchors| - 1].ref.block;
      assert CountIn(anchors, b) > 0;
      assert b in counts;
    } else {
      assert forall b :: b !in counts;
    }
  }

  lemma {:induction false} CountedAnchor(anchors: seq<Anchor>, b: nat)
    requires CountIn(anchors, b) > 0
    ensures exists a :: a in anchors && a.ref.block == b
    decreases |anchors|
  {
    if anchors[|anchors| - 1].ref.block != b {
      CountedAnchor(anchors[..|anchors| - 1], b);
    }
  }

  lemma CountsInRange(orig: Cfg, counts: StackOpCounter, anchors: seq<Anchor>)
    requires AnchorsOk(orig, anchors) && CountsOf(counts, anchors)
    ensures forall b :: b in counts ==> b < |orig|
  {
    forall b | b in counts ensures b < |orig| {
      CountedAnchor(anchors, b);
    }
  }

  lemma {:induction false} AnchorsUpTo(stack: seq<StackData>, instrumentLifetime: bool, k: nat)
    requires k <= |stack|
    ensures forall a :: a in Anchors(stack[..k], instrumentLifetime) ==> a in Anchors(stack, instrumentLifetime)
    decreases |stack|
  {
    if k < |stack| {
      AnchorsUpTo(stack[..|stack| - 1], instrumentLifetime, k);
      assert stack[..|stack| - 1][..k] == stack[..k];
    } else {
      assert stack[..k] == stack;
    }
  }

  predicate AllPredecessorsCount(blocks: Cfg, counts: StackOpCounter, b: nat) {
    forall p :: 0 <= p < |blocks| && b in Successors(blocks[p].term) ==> p in counts
  }

  /** Insert the counter, its increments and the scope exits. */
  method AddStackHandling(f: Function, allocCounts: StackOpCounter, ghost orig: Cfg, ghost anchors: seq<Anchor>)
    requires Original(orig) && Expanded(orig, f.blocks, anchors) && CountsOf(allocCounts, anchors)
    requires forall b :: b in allocCounts ==> b < |orig|
    modifies f
    ensures Rewritten(orig, f.blocks, anchors)
  {
    // counter = 0 at the beginning of the function
    f.blocks := f.blocks[0 := f.blocks[0].(instrs := [InitCounter] + f.blocks[0].instrs)];
    AddIncrements(f, allocCounts, orig, anchors);
    var n := |f.blocks|;
    for b := 0 to n
      invariant n == |orig| && Closed(orig, f.blocks, anchors, b)
    {
      if f.blocks[b].term.Return? {
        AddScopeExit(f, allocCounts, orig, anchors, b);
      } else {
        assert RewrittenBlock(orig, f.blocks, anchors, b);
      }
    }
  }

  /** The blocks before `done` have their scope exits; the blocks behind the original ones are split off. */
  ghost predicate Closed(orig: Cfg, cfg: Cfg, anchors: seq<Anchor>, done: nat) {
    && done <= |orig| <= |cfg|
    && (forall c :: 0 <= c < done ==> RewrittenBlock(orig, cfg, anchors, c))
    && (forall c :: done <= c < |orig| ==> cfg[c] == Block(Body(orig, anchors, c), orig[c].term))
    && (forall c :: |orig| <= c < |cfg| ==> forall s :: s in Successors(cfg[c].term) ==> |orig| <= s)
  }

  /** The scope exit of a return block, behind a test of the counter if all predecessors count. */
  method AddScopeExit(f: Function, allocCounts: StackOpCounter, ghost orig: Cfg, ghost anchors: seq<Anchor>, b: nat)
    requires Original(orig) && CountsOf(allocCounts, anchors)
    requires b < |orig| && Closed(orig, f.blocks, anchors, b) && orig[b].term.Return?
    modifies f
    ensures Closed(orig, f.blocks, anchors, b + 1)
  {
    ReturnPredecessors(orig, f.blocks, anchors, allocCounts, b);
    ghost var was := f.blocks;
    var block := f.blocks[b];
    if AllPredecessorsCount(f.blocks, allocCounts, b) {
      var thenBlock := |f.blocks|;
      f.blocks := f.blocks[b := Block(block.instrs, IfCounterNonZero(thenBlock, thenBlock + 1))]
                  + [Block([LeaveCallback], Branch([thenBlock + 1])), Block([], Return)];
    } else {
      f.blocks := f.blocks[b := block.(instrs := block.instrs + [LeaveCallback])];
    }
    assert RewrittenBlock(orig, f.blocks, anchors, b);
    ClosedGrows(orig, was, f.blocks, anchors, b);
  }

  lemma ClosedGrows(orig: Cfg, was: Cfg, cfg: Cfg, anchors: seq<Anchor>, b: nat)
    requires b < |orig| && Closed(orig, was, anchors, b) && |was| <= |cfg|
    requires forall c :: 0 <= c < |was| && c != b ==> cfg[c] == was[c]
    requires forall c :: |was| <= c < |cfg| ==> forall s :: s in Successors(cfg[c].term) ==> |orig| <= s
    requires RewrittenBlock(orig, cfg, anchors, b)
    ensures Closed(orig, cfg, anchors, b + 1)
  {
    forall c | 0 <= c < b ensures RewrittenBlock(orig, cfg, anchors, c) {
      assert RewrittenBlock(orig, was, anchors, c);
    }
  }

  method AddIncrements(f: Function, allocCounts: StackOpCounter, ghost orig: Cfg, ghost anchors: seq<Anchor>)
    requires Original(orig) && CountsOf(allocCounts, anchors) && |f.blocks| == |orig|
    requires forall b :: b in allocCounts ==> b < |orig|
    requires forall b :: 0 <= b < |orig| ==>
               f.blocks[b] == Block((if b == 0 then [InitCounter] else []) + Expand(orig[b].instrs, anchors, b), orig[b].term)
    modifies f
    ensures |f.blocks| == |orig|
    ensures forall b :: 0 <= b < |orig| ==> f.blocks[b] == Block(Body(orig, anchors, b), orig[b].term)
  {
    var todo := allocCounts.Keys;
    while todo != {}
      invariant todo <= allocCounts.Keys && |f.blocks| == |orig|
      invariant forall b :: 0 <= b < |orig| ==>
                  f.blocks[b] == if b in todo
                                 then Block((if b == 0 then [InitCounter] else []) + Expand(orig[b].instrs, anchors, b), orig[b].term)
                                 else Block(Body(orig, anchors, b), orig[b].term)
      decreases |todo|
    {
      var b :| b in todo;
      var block := f.blocks[b];
      f.blocks := f.blocks[b := block.(instrs := block.instrs + [AddToCounter(allocCounts[b])])];
      todo := todo - {b};
    }
  }

  /** Splitting earlier return blocks does not change who the predecessors of a block are. */
  lemma ReturnPredecessors(orig: Cfg, cfg: Cfg, anchors: seq<Anchor>, counts: StackOpCounter, b: nat)
    requires Original(orig) && CountsOf(counts, anchors) && b < |orig| && Closed(orig, cfg, anchors, b)
    ensures AllPredecessorsCount(cfg, counts, b) <==> Guarded(orig, anchors, b)
  {
    forall p | 0 <= p < |orig| ensures b in Successors(cfg[p].term) <==> b in Successors(orig[p].term) {
      if p < b { assert RewrittenBlock(orig, cfg, anchors, p); }
    }
  }
}
