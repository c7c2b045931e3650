/**
 The path-avoiding depth-first search of the value filters (FilterBase.h, IRSearch.h, IRPath.h). The handlers of
 call sites may look at the whole path. Where they only look at the value, the search decides plain reachability,
 although it cuts off phi nodes and never marks a value as done; without phi nodes it decides for any handlers.
 */
module Filter {

  /** A value of the program, by number. */
  type Value = nat

  datatype FilterAnalysis = Skip | Continue | Keep | FilterValue | FollowDef

  /** What the search looks at; `byValueToAlloca` is a store of a non-pointer into an alloca. */
  datatype Kind = Phi | Store(pointer: Value, byValueToAlloca: bool) | Other

  /** A value with its users, and whether it is an OpenMP task-related store. */
  datatype Node = Node(kind: Kind, users: seq<Value>, taskStore: bool)

  /** `callsite` is the status of the value at the end of a path. */
  datatype IR = IR(nodes: seq<Node>, callsite: seq<Value> -> FilterAnalysis) {

    function Status(v: Value): FilterAnalysis {
      callsite([v])
    }

    /** References stay inside, and what a store writes through is not itself a task-related store. */
    ghost predicate Valid() {
      forall v :: 0 <= v < |nodes| ==>
        && (forall u :: u in nodes[v].users ==> u < |nodes|)
        && (nodes[v].kind.Store? ==> nodes[v].kind.pointer < |nodes| && !nodes[nodes[v].kind.pointer].taskStore)
    }

    /** The search follows from a store to its target, unless a value is stored to an alloca, else to the users. */
    predicate Leads(v: Value, s: Value) {
      v < |nodes| &&
      if nodes[v].kind.Store? then !nodes[v].kind.byValueToAlloca && s == nodes[v].kind.pointer
      else s in nodes[v].users
    }

    function Successors(v: Value): (succs: seq<Value>)
      requires v < |nodes|
      ensures forall s :: s in succs <==> Leads(v, s)
    {
      match nodes[v].kind
      case Store(pointer, byValueToAlloca) => if byValueToAlloca then [] else [pointer]
      case _ => nodes[v].users
    }

  }

  /** The first `n` values. */
  function Values(n: nat): (vs: set<Value>)
    ensures forall v: Value :: v in vs <==> v < n
  {
    if n == 0 then {} else Values(n - 1) + {n - 1}
  }

  /** The values the search has not put on the path; each nested search has one less. */
  function NotOnPath(ir: IR, path: seq<Value>): set<Value> {
    Values(|ir.nodes|) - set v | v in path
  }

  lemma PathGrows(ir: IR, path: seq<Value>, current: Value)
    requires Simple(path + [current]) && current < |ir.nodes|
    ensures current !in path && NotOnPath(ir, path + [current]) < NotOnPath(ir, path)
  {
    forall i | 0 <= i < |path| ensures path[i] != current {
      assert (path + [current])[i] == path[i] && (path + [current])[|path|] == current;
    }
    assert current in NotOnPath(ir, path) && current !in NotOnPath(ir, path + [current]);
  }

  // ----- Reachability -----

  function Last(p: seq<Value>): Value
    requires p != []
  {
    p[|p| - 1]
  }

  /** The status of a call site depends on the value alone. */
  ghost predicate ByValue(ir: IR) {
    forall p :: p != [] ==> ir.callsite(p) == ir.Status(Last(p))
  }

  predicate NoPhi(ir: IR) {
    forall v :: 0 <= v < |ir.nodes| ==> !ir.nodes[v].kind.Phi?
  }

  predicate InRange(ir: IR, p: seq<Value>) {
    forall i :: 0 <= i < |p| ==> p[i] < |ir.nodes|
  }

  /** The walk goes on from its i-th value: it is not skipped there, and the next value is a successor. */
  predicate GoesOn(ir: IR, p: seq<Value>, i: nat)
    requires InRange(ir, p) && i + 1 < |p|
  {
    ir.callsite(p[..i + 1]) != Skip && ir.Leads(p[i], p[i + 1])
  }

  /** A walk along successors that continues only behind values that are not skipped. */
  predicate IsWalk(ir: IR, p: seq<Value>) {
    p != [] && InRange(ir, p) && forall i :: 0 <= i < |p| - 1 ==> GoesOn(ir, p, i)
  }

  /** The walk ends at a call that must be kept, or at a value that is passed on to a task. */
  predicate KeptAt(ir: IR, p: seq<Value>)
    requires IsWalk(ir, p)
  {
    ir.callsite(p) == Keep
    || (ir.callsite(p) != Skip
        && exists s :: 0 <= s < |ir.nodes| && ir.Leads(Last(p), s) && ir.nodes[s].taskStore)
  }

  /** Some walk from the start shows that the value has to be kept. */
  ghost predicate ReachesKept(ir: IR, start: Value) {
    exists p :: IsWalk(ir, p) && p[0] == start && KeptAt(ir, p)
  }

  /** The same for a walk that meets no value twice. */
  ghost predicate ReachesKeptSimply(ir: IR, start: Value) {
    exists p :: IsWalk(ir, p) && Simple(p) && p[0] == start && KeptAt(ir, p)
  }

  predicate Simple(p: seq<Value>) {
    forall i, j :: 0 <= i < j < |p| ==> p[i] != p[j]
  }

  // ----- Path and search -----

  class IRPath {
    var path: seq<Value>
    var phiCache: map<Value, int>

    constructor ()
      ensures path == [] && phiCache == map[]
    {
      path, phiCache := [], map[];
    }

    method Push(ir: IR, v: Value)
      requires v < |ir.nodes|
      modifies this
      ensures path == old(path) + [v]
      ensures phiCache == if ir.nodes[v].kind.Phi?
                          then old(phiCache)[v := (if v in old(phiCache) then old(phiCache)[v] else 0) + 1]
                          else old(phiCache)
    {
      if ir.nodes[v].kind.Phi? {
        phiCache := phiCache[v := (if v in phiCache then phiCache[v] else 0) + 1];
      }
      path := path + [v];
    }

    method Pop()
      modifies this
      ensures path == if old(path) == [] then [] else old(path)[..|old(path)| - 1]
      ensures phiCache == old(phiCache)
    {
      if path != [] {
        path := path[..|path| - 1];
      }
    }

    predicate Contains(v: Value)
      reads this
    {
      v in path
    }
  }

  /** DefaultSearch::search: nothing behind a phi seen twice, nor from a store whose target is on the path. */
  function Search(ir: IR, v: Value, p: IRPath): (succs: seq<Value>)
    requires v < |ir.nodes|
    reads p
    ensures ir.nodes[v].kind.Phi? && v in p.phiCache && p.phiCache[v] >= 2 ==> succs == []
    ensures ir.nodes[v].kind.Phi? && (v !in p.phiCache || p.phiCache[v] <= 1) ==> succs == ir.nodes[v].users
    ensures ir.nodes[v].kind.Other? ==> succs == ir.nodes[v].users
    ensures ir.nodes[v].kind.Store? ==>
              succs == if ir.nodes[v].kind.byValueToAlloca || ir.nodes[v].kind.pointer in p.path then []
                       else [ir.nodes[v].kind.pointer]
  {
    if ir.nodes[v].kind.Phi? && v in p.phiCache && p.phiCache[v] > 1 then []
    else
      match ir.nodes[v].kind
      case Store(pointer, byValueToAlloca) =>
        if byValueToAlloca then [] else if p.Contains(pointer) then [] else [pointer]
      case _ => ir.nodes[v].users
  }

  class PathList {
    var paths: seq<seq<Value>>

    constructor ()
      ensures paths == []
    {
      paths := [];
    }
  }

  // ----- What the search keeps -----

  /** Nothing is left to do at `v`: it is not kept, and what it leads to has been visited. */
  ghost predicate Done(ir: IR, v: Value, visited: set<Value>) {
    v < |ir.nodes| && ir.Status(v) != Keep &&
    (ir.Status(v) != Skip ==>
       forall s :: s in ir.Successors(v) ==> s in visited && s < |ir.nodes| && !ir.nodes[s].taskStore)
  }

  /** Visited values are done unless they are still on the path, and phi nodes are counted once visited. */
  ghost predicate Explored(ir: IR, visited: set<Value>, path: seq<Value>, phiCache: map<Value, int>) {
    && (forall v :: v in visited && v !in path ==> Done(ir, v, visited))
    && (forall v :: 0 <= v < |ir.nodes| && ir.nodes[v].kind.Phi? ==> (v in visited <==> v in phiCache))
    && (forall v :: v in phiCache ==> phiCache[v] >= 1)
  }

  /** A simple walk from the start to a call to follow. */
  ghost predicate Follows(ir: IR, start: Value, p: seq<Value>) {
    IsWalk(ir, p) && Simple(p) && p[0] == start && ir.callsite(p) == FollowDef
  }

  ghost predicate Recorded(ir: IR, start: Value, paths: seq<seq<Value>>) {
    forall i :: 0 <= i < |paths| ==> Follows(ir, start, paths[i])
  }

  /** Every visited call to follow ends a recorded path. */
  ghost predicate AllFollowed(ir: IR, visited: set<Value>, paths: seq<seq<Value>>) {
    forall v :: v in visited && v < |ir.nodes| && ir.Status(v) == FollowDef ==> EndsSome(paths, v)
  }

  ghost predicate EndsSome(paths: seq<seq<Value>>, v: Value) {
    exists i :: 0 <= i < |paths| && paths[i] != [] && Last(paths[i]) == v
  }

  /** What the search keeps; visited values say something where statuses depend on the value alone. */
  ghost predicate Searching(ir: IR, start: Value, visited: set<Value>, path: seq<Value>, phiCache: map<Value, int>,
                            paths: seq<seq<Value>>)
  {
    && Recorded(ir, start, paths)
    && (forall v :: v in path ==> v in visited)
    && (ByValue(ir) ==> Explored(ir, visited, path, phiCache) && AllFollowed(ir, visited, paths))
  }

  /** No simple walk that starts this way is kept, and those that end at a call to follow are recorded. */
  ghost predicate Covered(ir: IR, prefix: seq<Value>, paths: seq<seq<Value>>) {
    forall q :: prefix <= q && IsWalk(ir, q) && Simple(q) ==>
      !KeptAt(ir, q) && (ir.callsite(q) == FollowDef ==> q in paths)
  }

  lemma DoneStays(ir: IR, v: Value, visited: set<Value>, more: set<Value>)
    requires Done(ir, v, visited) && visited <= more
    ensures Done(ir, v, more)
  {
  }

  // ----- Entering a value -----

  function CountedPhi(ir: IR, v: Value, phiCache: map<Value, int>): map<Value, int>
    requires v < |ir.nodes|
  {
    if ir.nodes[v].kind.Phi? then phiCache[v := (if v in phiCache then phiCache[v] else 0) + 1] else phiCache
  }

  /** Entering a value: it is visited, on the path, and counted if it is a phi. */
  lemma EnterExplored(ir: IR, current: Value, visited: set<Value>, path: seq<Value>, phiCache: map<Value, int>)
    requires current < |ir.nodes| && Explored(ir, visited, path, phiCache)
    ensures Explored(ir, visited + {current}, path + [current], CountedPhi(ir, current, phiCache))
  {
    forall v | v in visited + {current} && v !in path + [current] ensures Done(ir, v, visited + {current}) {
      DoneStays(ir, v, visited, visited + {current});
    }
  }

  /** The paths after entering the value at the end of the walk. */
  function PathsWith(ir: IR, walk: seq<Value>, paths: seq<seq<Value>>): seq<seq<Value>> {
    if ir.callsite(walk) == FollowDef then paths + [walk] else paths
  }

  lemma EnterFollowed(ir: IR, walk: seq<Value>, visited: set<Value>, paths: seq<seq<Value>>)
    requires ByValue(ir) && AllFollowed(ir, visited, paths) && walk != []
    ensures AllFollowed(ir, visited + {Last(walk)}, PathsWith(ir, walk, paths))
  {
    var more := PathsWith(ir, walk, paths);
    forall v | v in visited + {Last(walk)} && v < |ir.nodes| && ir.Status(v) == FollowDef ensures EndsSome(more, v) {
      if v == Last(walk) {
        assert more[|paths|] == walk;
      } else {
        var i :| 0 <= i < |paths| && paths[i] != [] && Last(paths[i]) == v;
        assert more[i] == paths[i];
      }
    }
  }

  lemma Enter(ir: IR, start: Value, current: Value, visited: set<Value>, path: seq<Value>, phiCache: map<Value, int>,
              paths: seq<seq<Value>>)
    requires Searching(ir, start, visited, path, phiCache, paths) && current < |ir.nodes|
    requires IsWalk(ir, path + [current]) && Simple(path + [current]) && (path + [current])[0] == start
    ensures Searching(ir, start, visited + {current}, path + [current], CountedPhi(ir, current, phiCache),
                      PathsWith(ir, path + [current], paths))
  {
    if ByValue(ir) {
      EnterExplored(ir, current, visited, path, phiCache);
      EnterFollowed(ir, path + [current], visited, paths);
    }
  }

  // ----- Leaving a value -----

  /** Leaving a value whose successors are all visited. */
  lemma LeaveExplored(ir: IR, current: Value, visited: set<Value>, path: seq<Value>, phiCache: map<Value, int>)
    requires Explored(ir, visited, path + [current], phiCache) && Done(ir, current, visited)
    ensures Explored(ir, visited, path, phiCache)
  {
    forall v | v in visited && v !in path ensures Done(ir, v, visited) {
      assert v == current || v !in path + [current];
    }
  }

  /** The search gives all successors, or leaves out a phi seen before or a store whose target is on the path. */
  ghost predicate Exhaustive(ir: IR, current: Value, path: seq<Value>, phiCache: map<Value, int>, searched: seq<Value>)
    requires current < |ir.nodes|
  {
    || searched == ir.Successors(current)
    || (ir.nodes[current].kind.Phi? && current in phiCache)
    || (ir.nodes[current].kind.Store? && ir.nodes[current].kind.pointer in path + [current])
  }

  lemma SearchIsExhaustive(ir: IR, current: Value, p: IRPath, path: seq<Value>, phiCache: map<Value, int>)
    requires current < |ir.nodes| && p.path == path + [current] && p.phiCache == CountedPhi(ir, current, phiCache)
    ensures Exhaustive(ir, current, path, phiCache, Search(ir, current, p))
    ensures forall s :: s in Search(ir, current, p) ==> s in ir.Successors(current)
  {
  }

  /** The successor is no task store, has been visited, and without phi nodes the simple walks through it are covered. */
  ghost predicate Searched(ir: IR, s: Value, walk: seq<Value>, visited: set<Value>, paths: seq<seq<Value>>) {
    && s in visited && s < |ir.nodes| && !ir.nodes[s].taskStore
    && (NoPhi(ir) ==> s in walk || Covered(ir, walk + [s], paths))
  }

  /** What has been done at the value: it was skipped, or everything searched from it is visited and covered. */
  ghost predicate Finished(ir: IR, current: Value, path: seq<Value>, phiCache: map<Value, int>, visited: set<Value>,
                           paths: seq<seq<Value>>, searched: seq<Value>)
    requires current < |ir.nodes|
  {
    ir.callsite(path + [current]) == Skip
    || (Exhaustive(ir, current, path, phiCache, searched)
        && forall s :: s in searched ==> Searched(ir, s, path + [current], visited, paths))
  }

  /** What the search leaves out is done: a phi seen before, or a store whose target is on the path. */
  lemma AllDone(ir: IR, current: Value, visited: set<Value>, path: seq<Value>, phiCache: map<Value, int>,
                visited': set<Value>, paths: seq<seq<Value>>, searched: seq<Value>)
    requires ir.Valid() && ByValue(ir) && current < |ir.nodes| && current !in path
    requires Explored(ir, visited, path, phiCache) && visited + {current} <= visited'
    requires forall v :: v in path ==> v in visited
    requires ir.callsite(path + [current]) != Keep
    requires Finished(ir, current, path, phiCache, visited', paths, searched)
    ensures Done(ir, current, visited')
  {
    assert ir.callsite(path + [current]) == ir.Status(current);
    if ir.Status(current) != Skip {
      if ir.nodes[current].kind.Phi? && current in phiCache {
        DoneStays(ir, current, visited, visited');
      } else if ir.nodes[current].kind.Store? {
        assert ir.nodes[current].kind.pointer in path ==> ir.nodes[current].kind.pointer in visited;
      }
    }
  }

  lemma Leave(ir: IR, start: Value, current: Value, visited: set<Value>, path: seq<Value>, phiCache: map<Value, int>,
              visited': set<Value>, phiCache': map<Value, int>, paths: seq<seq<Value>>, paths': seq<seq<Value>>,
              searched: seq<Value>)
    requires ir.Valid() && current < |ir.nodes| && current !in path && visited + {current} <= visited'
    requires Searching(ir, start, visited, path, phiCache, paths)
    requires Searching(ir, start, visited', path + [current], phiCache', paths')
    requires ir.callsite(path + [current]) != Keep
    requires Finished(ir, current, path, phiCache, visited', paths', searched)
    ensures Searching(ir, start, visited', path, phiCache', paths')
  {
    if ByValue(ir) {
      AllDone(ir, current, visited, path, phiCache, visited', paths', searched);
      LeaveExplored(ir, current, visited', path, phiCache');
    }
  }

  /** Without phi nodes, a finished value has all simple walks through it covered. */
  lemma FinishedIsCovered(ir: IR, current: Value, path: seq<Value>, phiCache: map<Value, int>, visited: set<Value>,
                          paths: seq<seq<Value>>, searched: seq<Value>)
    requires ir.Valid() && NoPhi(ir) && current < |ir.nodes| && ir.callsite(path + [current]) != Keep
    requires ir.callsite(path + [current]) == FollowDef ==> path + [current] in paths
    requires Finished(ir, current, path, phiCache, visited, paths, searched)
    ensures Covered(ir, path + [current], paths)
  {
    var walk := path + [current];
    forall q | walk <= q && IsWalk(ir, q) && Simple(q)
      ensures !KeptAt(ir, q) && (ir.callsite(q) == FollowDef ==> q in paths)
    {
      if |q| == |walk| {
        assert q == walk && Last(q) == current;
      } else {
        var next := q[|walk|];
        assert GoesOn(ir, q, |walk| - 1) && q[..|walk|] == walk && q[|walk| - 1] == current;
        NotBefore(walk, q);
        assert next in searched;
        assert walk + [next] <= q;
      }
    }
  }

  lemma NotBefore(walk: seq<Value>, q: seq<Value>)
    requires walk <= q && |walk| < |q| && Simple(q)
    ensures q[|walk|] !in walk
  {
    forall i | 0 <= i < |walk| ensures walk[i] != q[|walk|] {
      assert walk[i] == q[i];
    }
  }

  lemma WalkOn(ir: IR, walk: seq<Value>, next: Value)
    requires IsWalk(ir, walk) && next < |ir.nodes|
    requires ir.callsite(walk) != Skip && next in ir.Successors(Last(walk))
    ensures IsWalk(ir, walk + [next])
    ensures Simple(walk) && next !in walk ==> Simple(walk + [next])
  {
    var longer := walk + [next];
    forall i | 0 <= i < |longer| - 1 ensures GoesOn(ir, longer, i) {
      assert longer[..i + 1] == walk[..i + 1];
      if i < |walk| - 1 {
        assert GoesOn(ir, walk, i);
      } else {
        assert walk[..i + 1] == walk;
      }
    }
  }

  /** A path that tells why a value is kept: it ends at a call to keep, or at a task-related store. */
  ghost predicate ShowsKept(ir: IR, start: Value, p: seq<Value>) {
    && IsWalk(ir, p) && p[0] == start
    && ((ir.callsite(p) == Keep && Simple(p))
        || (|p| > 1 && ir.nodes[Last(p)].taskStore && Simple(p[..|p| - 1])))
  }

  lemma TaskStoreShown(ir: IR, walk: seq<Value>, store: Value)
    requires IsWalk(ir, walk) && Simple(walk) && ir.callsite(walk) != Skip && store in ir.Successors(Last(walk))
    requires store < |ir.nodes| && ir.nodes[store].taskStore
    ensures ShowsKept(ir, walk[0], walk + [store])
  {
    WalkOn(ir, walk, store);
    assert (walk + [store])[..|walk|] == walk;
  }

  lemma WalkPrefix(ir: IR, p: seq<Value>, k: nat)
    requires IsWalk(ir, p) && 0 < k <= |p|
    ensures IsWalk(ir, p[..k])
  {
    forall i | 0 <= i < k - 1 ensures GoesOn(ir, p[..k], i) {
      assert GoesOn(ir, p, i) && p[..k][..i + 1] == p[..i + 1];
    }
  }

  lemma ShownIsReached(ir: IR, start: Value, p: seq<Value>)
    requires ShowsKept(ir, start, p)
    ensures ReachesKeptSimply(ir, start) && ReachesKept(ir, start)
  {
    if !(ir.callsite(p) == Keep && Simple(p)) {
      var init := p[..|p| - 1];
      WalkPrefix(ir, p, |p| - 1);
      assert GoesOn(ir, p, |p| - 2) && p[..|p| - 2 + 1] == init;
      assert KeptAt(ir, init);
    }
  }

  method DFSfilter(ir: IR, current: Value, path: IRPath, plist: PathList, ghost start: Value, ghost visited: set<Value>)
    returns (filter: bool, ghost visited': set<Value>)
    requires ir.Valid() && IsWalk(ir, path.path + [current]) && Simple(path.path + [current])
    requires (path.path + [current])[0] == start
    requires Searching(ir, start, visited, path.path, path.phiCache, plist.paths)
    modifies path, plist
    ensures filter ==> path.path == old(path.path) && visited <= visited' && current in visited'
    ensures filter ==> Searching(ir, start, visited', path.path, path.phiCache, plist.paths)
    ensures filter ==> old(plist.paths) <= plist.paths
    ensures filter && NoPhi(ir) ==> Covered(ir, old(path.path) + [current], plist.paths)
    ensures !filter ==> ShowsKept(ir, start, path.path)
    decreases NotOnPath(ir, path.path), 0
  {
    ghost var before, phis, known := path.path, path.phiCache, plist.paths;
    ghost var walk := before + [current];
    assert current == walk[|before|];
    PathGrows(ir, before, current);
    Enter(ir, start, current, visited, before, phis, known);
    visited' := visited + {current};
    path.Push(ir, current);

    var skip := false;
    match ir.callsite(path.path) {
      case Keep =>
        return false, visited';
      case Skip => skip := true;
      case FollowDef => plist.paths := plist.paths + [path.path];
      case _ =>
    }

    ghost var searched: seq<Value> := [];
    if !skip {
      var successors := Search(ir, current, path);
      SearchIsExhaustive(ir, current, path, before, phis);
      searched := successors;
      filter, visited' := SearchSuccessors(ir, current, successors, path, plist, start, visited');
      if !filter {
        return;
      }
    }
    assert ir.callsite(walk) == FollowDef ==> plist.paths[|known|] == walk;
    assert Finished(ir, current, before, phis, visited', plist.paths, searched);
    Leave(ir, start, current, visited, before, phis, visited', path.phiCache, known, plist.paths, searched);
    if NoPhi(ir) {
      FinishedIsCovered(ir, current, before, phis, visited', plist.paths, searched);
    }
    path.Pop();
    filter := true;
  }

  /** The loop over the successors of the value at the end of the path. */
  method SearchSuccessors(ir: IR, current: Value, successors: seq<Value>, path: IRPath, plist: PathList,
                          ghost start: Value, ghost visited: set<Value>)
    returns (filter: bool, ghost visited': set<Value>)
    requires ir.Valid() && IsWalk(ir, path.path) && Simple(path.path) && Last(path.path) == current
    requires ir.callsite(path.path) != Skip && forall s :: s in successors ==> s in ir.Successors(current)
    requires path.path[0] == start
    requires Searching(ir, start, visited, path.path, path.phiCache, plist.paths)
    modifies path, plist
    ensures filter ==> path.path == old(path.path) && visited <= visited'
    ensures filter ==> forall s :: s in successors ==> Searched(ir, s, path.path, visited', plist.paths)
    ensures filter ==> Searching(ir, start, visited', path.path, path.phiCache, plist.paths)
    ensures filter ==> old(plist.paths) <= plist.paths
    ensures !filter ==> ShowsKept(ir, start, path.path)
    decreases NotOnPath(ir, path.path), 1
  {
    ghost var walk := path.path;
    visited' := visited;
    for i := 0 to |successors|
      invariant path.path == walk && visited <= visited' && old(plist.paths) <= plist.paths
      invariant Searching(ir, start, visited', walk, path.phiCache, plist.paths)
      invariant forall j :: 0 <= j < i ==> Searched(ir, successors[j], walk, visited', plist.paths)
    {
      var successor := successors[i];
      assert successor in ir.Successors(current);
      if ir.nodes[successor].taskStore {
        TaskStoreShown(ir, walk, successor);
        path.Push(ir, successor);
        return false, visited';
      }
      if path.Contains(successor) {
        continue;
      }
      WalkOn(ir, walk, successor);
      ghost var earlier, known := visited', plist.paths;
      filter, visited' := DFSfilter(ir, successor, path, plist, start, visited');
      if !filter {
        return;
      }
      forall j | 0 <= j < i ensures Searched(ir, successors[j], walk, visited', plist.paths) {
        SearchedStays(ir, successors[j], walk, earlier, known, visited', plist.paths);
      }
    }
    filter := true;
  }

  lemma SearchedStays(ir: IR, s: Value, walk: seq<Value>, visited: set<Value>, paths: seq<seq<Value>>,
                      visited': set<Value>, paths': seq<seq<Value>>)
    requires Searched(ir, s, walk, visited, paths) && visited <= visited' && paths <= paths'
    ensures Searched(ir, s, walk, visited', paths')
  {
    if NoPhi(ir) && s !in walk {
      forall q | walk + [s] <= q && IsWalk(ir, q) && Simple(q)
        ensures !KeptAt(ir, q) && (ir.callsite(q) == FollowDef ==> q in paths')
      {
        assert q in paths ==> q in paths' by {
          if q in paths { var i :| 0 <= i < |paths| && paths[i] == q; assert paths'[i] == q; }
        }
      }
    }
  }

  // ----- The whole search -----

  /** Everything a walk from a visited value meets is visited, once every visited value is done. */
  lemma {:induction false} WalkStaysVisited(ir: IR, visited: set<Value>, p: seq<Value>)
    requires ByValue(ir) && IsWalk(ir, p) && p[0] in visited && forall v :: v in visited ==> Done(ir, v, visited)
    ensures Last(p) in visited
    decreases |p|
  {
    if |p| > 1 {
      var init := p[..|p| - 1];
      WalkPrefix(ir, p, |p| - 1);
      WalkStaysVisited(ir, visited, init);
      assert GoesOn(ir, p, |p| - 2) && p[..|p| - 2 + 1] == init;
    }
  }

  /** Where statuses depend on the value, a finished search has met everything reachable. */
  lemma VisitedDecides(ir: IR, start: Value, visited: set<Value>, phiCache: map<Value, int>, paths: seq<seq<Value>>, p: seq<Value>)
    requires ByValue(ir) && start in visited && Searching(ir, start, visited, [], phiCache, paths)
    requires IsWalk(ir, p) && p[0] == start
    ensures !KeptAt(ir, p)
    ensures ir.callsite(p) == FollowDef ==> EndsSome(paths, Last(p))
  {
    WalkStaysVisited(ir, visited, p);
    assert Done(ir, Last(p), visited) && ir.callsite(p) == ir.Status(Last(p));
  }

  /**
   On false, the path tells why the value is kept. On true, the path is empty again and the recorded paths are
   simple walks to calls to follow. If statuses depend on the value alone, the filter passes exactly the values from
   which nothing to keep is reachable, and every reachable call to follow ends a recorded path. Without phi nodes,
   whatever statuses depend on, it passes exactly the values from which no simple walk is kept, and all simple walks
   to calls to follow are recorded.
   */
  method FilterFrom(ir: IR, start: Value, path: IRPath, plist: PathList) returns (filter: bool)
    requires ir.Valid() && start < |ir.nodes|
    requires path.path == [] && path.phiCache == map[] && plist.paths == []
    modifies path, plist
    ensures !filter ==> ShowsKept(ir, start, path.path) && ReachesKeptSimply(ir, start)
    ensures filter ==> path.path == [] && Recorded(ir, start, plist.paths)
    ensures ByValue(ir) ==> (filter <==> !ReachesKept(ir, start))
    ensures ByValue(ir) && filter ==>
              forall p :: IsWalk(ir, p) && p[0] == start && ir.callsite(p) == FollowDef ==> EndsSome(plist.paths, Last(p))
    ensures NoPhi(ir) ==> (filter <==> !ReachesKeptSimply(ir, start))
    ensures NoPhi(ir) && filter ==> forall p :: Follows(ir, start, p) ==> p in plist.paths
  {
    ghost var visited;
    assert [] + [start] == [start];
    filter, visited := DFSfilter(ir, start, path, plist, start, {});
    if filter {
      if ByValue(ir) {
        forall p | IsWalk(ir, p) && p[0] == start
          ensures !KeptAt(ir, p) && (ir.callsite(p) == FollowDef ==> EndsSome(plist.paths, Last(p)))
        {
          VisitedDecides(ir, start, visited, path.phiCache, plist.paths, p);
        }
      }
      if NoPhi(ir) {
        assert forall p :: IsWalk(ir, p) && p[0] == start ==> [start] <= p;
      }
    } else {
      ShownIsReached(ir, start, path.path);
    }
  }

  // ----- Handlers that look at the path -----

  /** A value, a call that gets it and passes it on in a loop; the call is to keep when it is entered from the loop. */
  const LOOPED_CALL := IR([Node(Other, [1], false), Node(Other, [2], false), Node(Other, [1], false)],
                          (p: seq<Value>) => if p == [0, 1, 2, 1] then Keep else Continue)

  /** There plain reachability and the search differ: the value is passed although a walk reaches a call to keep. */
  method LoopedCallIsMissed() returns (filter: bool)
    ensures filter && ReachesKept(LOOPED_CALL, 0) && !ByValue(LOOPED_CALL)
  {
    var path := new IRPath();
    var plist := new PathList();
    filter := FilterFrom(LOOPED_CALL, 0, path, plist);
    LoopedCall();
  }

  lemma LoopedCall()
    ensures ReachesKept(LOOPED_CALL, 0) && !ReachesKeptSimply(LOOPED_CALL, 0) && !ByValue(LOOPED_CALL)
  {
    var p := [0, 1, 2, 1];
    assert p[..1] == [0] && p[..2] == [0, 1] && p[..3] == [0, 1, 2];
    assert IsWalk(LOOPED_CALL, p) && KeptAt(LOOPED_CALL, p);
    assert p[1] == p[3] && !Simple(p);
    forall q | IsWalk(LOOPED_CALL, q) && Simple(q) ensures !KeptAt(LOOPED_CALL, q) {
      assert q != p;
    }
    assert LOOPED_CALL.callsite(p) != LOOPED_CALL.Status(Last(p));
  }
}
