/** Reachability in the call graph (lib/passes/filter/CGInterface.cpp): a worklist over names, and its query. */
module CallGraph {

  /** Callees by caller, and the functions that override a virtual one. */
  datatype Graph = Graph(calls: map<string, set<string>>, overrides: map<string, set<string>>) {

    /** A caller with an entry calls its callees and, where overrides are considered, what overrides it. */
    predicate Calls(caller: string, considerOverrides: bool, callee: string) {
      caller in calls &&
      (callee in calls[caller] || (considerOverrides && caller in overrides && callee in overrides[caller]))
    }

    /** get_directly_called_function_names: overrides only count for a function with an entry. */
    function DirectlyCalled(caller: string, considerOverrides: bool): (callees: set<string>)
      ensures forall x :: x in callees <==> Calls(caller, considerOverrides, x)
    {
      if caller in calls then
        if considerOverrides && caller in overrides then calls[caller] + overrides[caller] else calls[caller]
      else {}
    }

    function Names(): set<string> {
      (set c, x | c in calls && x in calls[c] :: x) + (set c, x | c in overrides && x in overrides[c] :: x)
    }
  }

  /** A chain of at least one call; overrides of the first caller only count if they are considered. */
  ghost predicate IsChain(g: Graph, chain: seq<string>, considerOverrides: bool) {
    && |chain| >= 2
    && g.Calls(chain[0], considerOverrides, chain[1])
    && forall i :: 1 <= i < |chain| - 1 ==> g.Calls(chain[i], true, chain[i + 1])
  }

  ghost predicate Reaches(g: Graph, source: string, considerOverrides: bool, f: string) {
    exists chain :: IsChain(g, chain, considerOverrides) && chain[0] == source && chain[|chain| - 1] == f
  }

  lemma ReachesOn(g: Graph, source: string, considerOverrides: bool, f: string, next: string)
    requires Reaches(g, source, considerOverrides, f) && next in g.DirectlyCalled(f, true)
    ensures Reaches(g, source, considerOverrides, next)
  {
    var chain :| IsChain(g, chain, considerOverrides) && chain[0] == source && chain[|chain| - 1] == f;
    var longer := chain + [next];
    forall i | 1 <= i < |longer| - 1 ensures g.Calls(longer[i], true, longer[i + 1]) {
      if i < |chain| - 1 {
        assert g.Calls(chain[i], true, chain[i + 1]);
      }
    }
    assert IsChain(g, longer, considerOverrides);
  }

  /** A set that holds the first callees and is closed under calls holds everything reachable. */
  lemma {:induction false} ClosedHoldsReachable(g: Graph, chain: seq<string>, considerOverrides: bool, s: set<string>)
    requires IsChain(g, chain, considerOverrides)
    requires g.DirectlyCalled(chain[0], considerOverrides) <= s
    requires forall f :: f in s ==> g.DirectlyCalled(f, true) <= s
    ensures chain[|chain| - 1] in s
    decreases |chain|
  {
    if |chain| > 2 {
      var init := chain[..|chain| - 1];
      assert IsChain(g, init, considerOverrides);
      ClosedHoldsReachable(g, init, considerOverrides, s);
      assert g.Calls(chain[|chain| - 2], true, chain[|chain| - 2 + 1]);
    }
  }

  lemma CalleesAreNames(g: Graph, f: string, considerOverrides: bool)
    ensures g.DirectlyCalled(f, considerOverrides) <= g.Names()
  {
    forall x | x in g.DirectlyCalled(f, considerOverrides) ensures x in g.Names() {
    }
  }

  /** Functions handled and functions to handle: all are reachable, and no call leads out of both. */
  ghost predicate Exploring(g: Graph, caller: string, considerOverrides: bool, ret: set<string>, worklist: set<string>) {
    && worklist <= g.Names()
    && g.DirectlyCalled(caller, considerOverrides) <= ret + worklist
    && (forall f :: f in ret ==> g.DirectlyCalled(f, true) <= ret + worklist)
    && (forall f :: f in ret + worklist ==> Reaches(g, caller, considerOverrides, f))
  }

  lemma ExploreStart(g: Graph, caller: string, considerOverrides: bool)
    ensures Exploring(g, caller, considerOverrides, {}, g.DirectlyCalled(caller, considerOverrides))
  {
    CalleesAreNames(g, caller, considerOverrides);
    forall f | f in g.DirectlyCalled(caller, considerOverrides) ensures Reaches(g, caller, considerOverrides, f) {
      assert IsChain(g, [caller, f], considerOverrides);
    }
  }

  lemma ExploreKnown(g: Graph, caller: string, considerOverrides: bool, ret: set<string>, worklist: set<string>, f: string)
    requires Exploring(g, caller, considerOverrides, ret, worklist) && f in worklist && f in ret
    ensures Exploring(g, caller, considerOverrides, ret, worklist - {f})
  {
  }

  lemma MoveOver(ret: set<string>, worklist: set<string>, callees: set<string>, f: string)
    requires f in worklist
    ensures (ret + {f}) + (worklist + callees - {f}) == ret + worklist + callees
  {
  }

  lemma ExploreNew(g: Graph, caller: string, considerOverrides: bool, ret: set<string>, worklist: set<string>, f: string)
    requires Exploring(g, caller, considerOverrides, ret, worklist) && f in worklist && f !in ret
    ensures Exploring(g, caller, considerOverrides, ret + {f}, worklist + g.DirectlyCalled(f, true) - {f})
  {
    var callees := g.DirectlyCalled(f, true);
    var all := ret + worklist + callees;
    assert (ret + {f}) + (worklist + callees - {f}) == all by {
      MoveOver(ret, worklist, callees, f);
    }
    assert worklist + callees - {f} <= g.Names() by {
      CalleesAreNames(g, f, true);
    }
    forall h | h in ret + {f} ensures g.DirectlyCalled(h, true) <= all {
    }
    forall h | h in all ensures Reaches(g, caller, considerOverrides, h) {
      if h !in ret + worklist {
        ReachesOn(g, caller, considerOverrides, f, h);
      }
    }
  }

  lemma NamesShrink(names: set<string>, ret: set<string>, f: string)
    requires f in names && f !in ret
    ensures names - (ret + {f}) < names - ret
  {
    assert f in names - ret;
  }

  lemma ExploreEnd(g: Graph, caller: string, considerOverrides: bool, ret: set<string>)
    requires Exploring(g, caller, considerOverrides, ret, {})
    ensures forall f :: f in ret <==> Reaches(g, caller, considerOverrides, f)
  {
    forall f | Reaches(g, caller, considerOverrides, f) ensures f in ret {
      var chain :| IsChain(g, chain, considerOverrides) && chain[0] == caller && chain[|chain| - 1] == f;
      ClosedHoldsReachable(g, chain, considerOverrides, ret);
    }
  }

  datatype ReachabilityResult = REACHES | MAYBE_REACHES | NEVER_REACHES

  type BodyMap = map<string, bool>

  /** What the subscript operator reads: a missing name counts as having no body. */
  predicate HasBody(m: BodyMap, name: string) {
    name in m && m[name]
  }

  /** The answer the code computes. */
  ghost function Answer(g: Graph, m: BodyMap, source: string, target: string, matches: string -> bool): ReachabilityResult {
    if exists f :: Reaches(g, source, true, f) && matches(f) then REACHES
    else if (HasReachable(g, source) && !HasBody(m, target)) || !HasBody(m, source) then MAYBE_REACHES
    else NEVER_REACHES
  }

  /** The answer its comments describe: uncertain when some function that is reachable has no body. */
  ghost function DocumentedAnswer(g: Graph, m: BodyMap, source: string, matches: string -> bool): ReachabilityResult {
    if exists f :: Reaches(g, source, true, f) && matches(f) then REACHES
    else if !AllHaveBodies(g, m, source) || !HasBody(m, source) then MAYBE_REACHES
    else NEVER_REACHES
  }

  ghost predicate HasReachable(g: Graph, source: string) {
    exists f :: Reaches(g, source, true, f)
  }

  ghost predicate AllHaveBodies(g: Graph, m: BodyMap, source: string) {
    forall f :: Reaches(g, source, true, f) ==> HasBody(m, f)
  }

  /** Code and comments agree exactly when the target stands for all reachable functions, or nothing depends on it. */
  lemma DocumentedIff(g: Graph, m: BodyMap, source: string, target: string, matches: string -> bool)
    ensures Answer(g, m, source, target, matches) == DocumentedAnswer(g, m, source, matches)
       <==> || (exists f :: Reaches(g, source, true, f) && matches(f))
            || !HasBody(m, source)
            || !HasReachable(g, source)
            || (HasBody(m, target) <==> AllHaveBodies(g, m, source))
  {
    if HasReachable(g, source) {
      var f :| Reaches(g, source, true, f);
    }
  }

  /** A program in which main calls one function without a body, and the target, which has one, is not called. */
  const UNSEEN_CALL := Graph(map["main" := {"helper"}, "helper" := {}, "compute" := {}], map[])
  const UNSEEN_BODIES: BodyMap := map["main" := true, "helper" := false, "compute" := true]

  lemma UnseenCallReaches(f: string)
    ensures Reaches(UNSEEN_CALL, "main", true, f) <==> f == "helper"
  {
    assert IsChain(UNSEEN_CALL, ["main", "helper"], true);
    if Reaches(UNSEEN_CALL, "main", true, f) {
      var chain :| IsChain(UNSEEN_CALL, chain, true) && chain[0] == "main" && chain[|chain| - 1] == f;
      assert |"main"| == 4 && |"helper"| == 6;
      ClosedHoldsReachable(UNSEEN_CALL, chain, true, {"helper"});
    }
  }

  /** There they differ: the code is certain although it cannot see into the only function called. */
  lemma DocumentedDiffers()
    ensures Answer(UNSEEN_CALL, UNSEEN_BODIES, "main", "compute", f => f == "compute") == NEVER_REACHES
    ensures DocumentedAnswer(UNSEEN_CALL, UNSEEN_BODIES, "main", f => f == "compute") == MAYBE_REACHES
  {
    forall f ensures Reaches(UNSEEN_CALL, "main", true, f) <==> f == "helper" {
      UnseenCallReaches(f);
    }
    assert |"main"| == 4 && |"helper"| == 6 && |"compute"| == 7;
    assert !HasBody(UNSEEN_BODIES, "helper");
  }

  /** The query itself gives that answer on that program. */
  method DocumentedDiffersWhenAsked(shortCircuit: bool) returns (r: ReachabilityResult)
    ensures r == NEVER_REACHES
  {
    DocumentedDiffers();
    var cg := new JSONCG(UNSEEN_CALL, UNSEEN_BODIES);
    r := cg.Reachable("main", "compute", f => f == "compute", shortCircuit);
  }

  class JSONCG {
    const graph: Graph
    var hasBodyMap: BodyMap
    var noCallChain: nat
    var callChain: nat
    var f: seq<string>

    constructor (graph: Graph, hasBodyMap: BodyMap)
      ensures this.graph == graph && this.hasBodyMap == hasBodyMap && noCallChain == callChain == 0 && f == []
    {
      this.graph, this.hasBodyMap := graph, hasBodyMap;
      noCallChain, callChain, f := 0, 0, [];
    }

    /** All functions reachable from the caller, whatever element the worklist hands out first. */
    method GetReachableFunctions(caller: string, considerOverrides: bool) returns (ret: set<string>)
      ensures forall f :: f in ret <==> Reaches(graph, caller, considerOverrides, f)
    {
      ret := {};
      var worklist := graph.DirectlyCalled(caller, considerOverrides);
      ExploreStart(graph, caller, considerOverrides);
      while worklist != {}
        invariant Exploring(graph, caller, considerOverrides, ret, worklist)
        decreases graph.Names() - ret, worklist
      {
        var funcName :| funcName in worklist;
        if funcName in ret {
          ExploreKnown(graph, caller, considerOverrides, ret, worklist, funcName);
        } else {
          ExploreNew(graph, caller, considerOverrides, ret, worklist, funcName);
          NamesShrink(graph.Names(), ret, funcName);
          worklist := worklist + graph.DirectlyCalled(funcName, true);
          ret := ret + {funcName};
        }
        worklist := worklist - {funcName};
      }
      ExploreEnd(graph, caller, considerOverrides, ret);
    }

    /** hasBodyMap[name]: reading inserts false for a missing name. */
    method LookUpBody(name: string) returns (hasBody: bool)
      modifies this`hasBodyMap
      ensures hasBody == HasBody(old(hasBodyMap), name)
      ensures forall x :: HasBody(hasBodyMap, x) == HasBody(old(hasBodyMap), x)
      ensures hasBodyMap.Keys == old(hasBodyMap).Keys + {name}
    {
      if name !in hasBodyMap {
        hasBodyMap := hasBodyMap[name := false];
      }
      hasBody := hasBodyMap[name];
    }

    /**
     The query; `matches` is the target's regular expression. Its answer depends neither on the order of the
     reachable functions nor on the early exit, and the entries it inserts change no later lookup.
     */
    method Reachable(source: string, target: string, matches: string -> bool, shortCircuit: bool)
      returns (r: ReachabilityResult)
      modifies this
      ensures r == Answer(graph, old(hasBodyMap), source, target, matches)
      ensures forall x :: HasBody(hasBodyMap, x) == HasBody(old(hasBodyMap), x)
      ensures old(hasBodyMap).Keys <= hasBodyMap.Keys <= old(hasBodyMap).Keys + {source, target}
      ensures noCallChain == old(noCallChain) + if HasBody(old(hasBodyMap), source) then 0 else 1
      ensures if exists x :: Reaches(graph, source, true, x) then callChain == old(callChain) + 1 && f == old(f) + [source]
              else callChain == old(callChain) && f == old(f)
    {
      var reachables := GetReachableFunctions(source, true);
      var sourceHasBody := LookUpBody(source);
      if !sourceHasBody {
        noCallChain := noCallChain + 1;
      }
      if reachables != {} {
        callChain := callChain + 1;
        f := f + [source];
      }
      var matched, allBodies := MatchAll(reachables, target, matches, shortCircuit);
      if matched {
        return REACHES;
      }
      if !allBodies {
        return MAYBE_REACHES;
      }
      sourceHasBody := LookUpBody(source);
      if !sourceHasBody {
        return MAYBE_REACHES;
      }
      r := NEVER_REACHES;
    }

    /** The loop over the reachable functions, in any order; it looks the target up, not the function. */
    method MatchAll(reachables: set<string>, target: string, matches: string -> bool, shortCircuit: bool)
      returns (matched: bool, allBodies: bool)
      modifies this`hasBodyMap
      ensures matched <==> exists x :: x in reachables && matches(x)
      ensures !matched ==> (allBodies <==> reachables == {} || HasBody(old(hasBodyMap), target))
      ensures forall x :: HasBody(hasBodyMap, x) == HasBody(old(hasBodyMap), x)
      ensures old(hasBodyMap).Keys <= hasBodyMap.Keys <= old(hasBodyMap).Keys + {target}
    {
      matched, allBodies := false, true;
      var todo := reachables;
      while todo != {}
        invariant todo <= reachables
        invariant matched <==> exists x :: x in reachables && x !in todo && matches(x)
        invariant allBodies <==> (todo == reachables || HasBody(old(hasBodyMap), target))
        invariant forall x :: HasBody(hasBodyMap, x) == HasBody(old(hasBodyMap), x)
        invariant old(hasBodyMap).Keys <= hasBodyMap.Keys <= old(hasBodyMap).Keys + {target}
        decreases todo
      {
        var functionName :| functionName in todo;
        todo := todo - {functionName};
        matched := matched || matches(functionName);
        if allBodies {
          allBodies := LookUpBody(target);
        }
        if matched && shortCircuit {
          return;
        }
      }
    }
  }
}
