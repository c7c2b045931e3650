/** Traversal of def-use chains (lib/passes/support/DefUseChain.h): a working list and a set of values seen. */
module DefUseChain {
  import opened Wrappers

  type Value = nat

  datatype MatchResult = NO_MATCH | MATCH | CANCEL | SKIP

  /**
   What a traversal meets: for each value what the search direction returns (nothing for a value without an
   entry), the callback's answer, and the constant data, which is never searched.
   */
  datatype Uses = Uses(found: map<Value, seq<Value>>, answer: Value -> MatchResult, constants: set<Value>) {

    function Search(v: Value): (s: seq<Value>)
      ensures forall w :: w in s <==> Leads(this, v, w)
    {
      if v in found then found[v] else []
    }

    /** The traversal goes on behind `v`. A cancelled match ends only its own switch statement. */
    predicate Followed(v: Value) {
      answer(v) != SKIP && v !in constants
    }

    function Values(): set<Value> {
      set v, i | v in found && 0 <= i < |found[v]| :: found[v][i]
    }
  }

  /** The search direction has an entry for `v`, and `w` is in it. */
  predicate Leads(g: Uses, v: Value, w: Value) {
    v in g.found && w in g.found[v]
  }

  /** At least one step from the start, and only followed values in between. */
  ghost predicate IsWalk(g: Uses, p: seq<Value>) {
    && |p| >= 2
    && (forall i :: 0 <= i < |p| - 1 ==> Leads(g, p[i], p[i + 1]))
    && (forall i :: 1 <= i < |p| - 1 ==> g.answer(p[i]) != SKIP && p[i] !in g.constants)
  }

  ghost predicate Reaches(g: Uses, start: Value, v: Value) {
    exists p :: IsWalk(g, p) && p[0] == start && p[|p| - 1] == v
  }

  lemma ReachesFirst(g: Uses, start: Value, v: Value)
    requires v in g.Search(start)
    ensures Reaches(g, start, v)
  {
    var p := [start, v];
    assert IsWalk(g, p) && p[0] == start && p[|p| - 1] == v;
  }

  lemma ReachesOn(g: Uses, start: Value, v: Value, next: Value)
    requires Reaches(g, start, v) && g.Followed(v) && next in g.Search(v)
    ensures Reaches(g, start, next)
  {
    var p :| IsWalk(g, p) && p[0] == start && p[|p| - 1] == v;
    var longer := p + [next];
    forall i | 0 <= i < |longer| - 1 ensures Leads(g, longer[i], longer[i + 1]) {
      if i < |p| - 1 { assert Leads(g, p[i], p[i + 1]); }
    }
    assert IsWalk(g, longer);
  }

  lemma {:induction false} ClosedHoldsReachable(g: Uses, p: seq<Value>, s: set<Value>)
    requires IsWalk(g, p) && (forall v :: v in g.Search(p[0]) ==> v in s)
    requires forall v, w :: v in s && g.Followed(v) && w in g.Search(v) ==> w in s
    ensures p[|p| - 1] in s
    decreases |p|
  {
    if |p| > 2 {
      var init := p[..|p| - 1];
      assert forall i :: 0 <= i < |init| - 1 ==> init[i] == p[i] && Leads(g, p[i], p[i + 1]);
      assert IsWalk(g, init);
      ClosedHoldsReachable(g, init, s);
      assert Leads(g, p[|p| - 2], p[|p| - 2 + 1]);
    } else {
      assert Leads(g, p[0], p[0 + 1]);
    }
  }

  /** Only skipping matters: callbacks that skip the same values visit the same, whatever else they answer. */
  lemma OnlySkipMatters(g: Uses, h: Uses, start: Value, v: Value)
    requires g.found == h.found && g.constants == h.constants
    requires forall x :: g.answer(x) == SKIP <==> h.answer(x) == SKIP
    ensures Reaches(g, start, v) <==> Reaches(h, start, v)
  {
    SkipsAlike(g, h, start, v);
    SkipsAlike(h, g, start, v);
  }

  lemma SkipsAlike(g: Uses, h: Uses, start: Value, v: Value)
    requires g.found == h.found && g.constants == h.constants
    requires forall x :: g.answer(x) == SKIP <==> h.answer(x) == SKIP
    ensures Reaches(g, start, v) ==> Reaches(h, start, v)
  {
    if Reaches(g, start, v) {
      var p :| IsWalk(g, p) && p[0] == start && p[|p| - 1] == v;
      forall i | 0 <= i < |p| - 1 ensures Leads(h, p[i], p[i + 1]) {
        assert Leads(g, p[i], p[i + 1]);
      }
      assert IsWalk(h, p);
    }
  }

  predicate Distinct(s: seq<Value>) {
    forall i, j :: 0 <= i < j < |s| ==> s[i] != s[j]
  }

  /** The values that are new, in their order, each where it comes first. */
  function NewOnes(vals: seq<Value>, seen: set<Value>): seq<Value> {
    if vals == [] then [] else
      var init, last := vals[..|vals| - 1], vals[|vals| - 1];
      NewOnes(init, seen) + if last in seen || last in init then [] else [last]
  }

  lemma {:induction false} NewOnesMeaning(vals: seq<Value>, seen: set<Value>)
    ensures Distinct(NewOnes(vals, seen))
    ensures forall v :: v in NewOnes(vals, seen) <==> v in vals && v !in seen
    decreases |vals|
  {
    if vals != [] {
      NewOnesMeaning(vals[..|vals| - 1], seen);
      assert vals == vals[..|vals| - 1] + [vals[|vals| - 1]];
    }
  }

  class DefUseChain {
    var workingSet: seq<Value>
    var seenSet: set<Value>

    constructor ()
      ensures workingSet == [] && seenSet == {}
    {
      workingSet, seenSet := [], {};
    }

    method AddToWork(vals: seq<Value>)
      modifies this
      ensures workingSet == old(workingSet) + NewOnes(vals, old(seenSet))
      ensures seenSet == old(seenSet) + set v | v in vals
    {
      for i := 0 to |vals|
        invariant workingSet == old(workingSet) + NewOnes(vals[..i], old(seenSet))
        invariant seenSet == old(seenSet) + set v | v in vals[..i]
      {
        assert vals[..i + 1] == vals[..i] + [vals[i]] && vals[..i + 1][..i] == vals[..i];
        if vals[i] !in seenSet {
          workingSet := workingSet + [vals[i]];
          seenSet := seenSet + {vals[i]};
        }
      }
      assert vals[..|vals|] == vals;
    }

    /** Take the value added last, if there is one. */
    method Peek() returns (v: Option<Value>)
      modifies this`workingSet
      ensures v.None? <==> old(workingSet) == []
      ensures v.Some? ==> old(workingSet) == workingSet + [v.value]
      ensures v.None? ==> workingSet == []
    {
      if workingSet == [] {
        return None;
      }
      v := Some(workingSet[|workingSet| - 1]);
      workingSet := workingSet[..|workingSet| - 1];
    }

    /** The callback is applied, in the order of `visits`, exactly once to each value that is reachable. */
    method DoTraverse(g: Uses, start: Value) returns (visits: seq<Value>)
      requires workingSet == [] && seenSet == {}
      modifies this
      ensures Distinct(visits)
      ensures forall v :: v in visits <==> Reaches(g, start, v)
      ensures workingSet == [] && seenSet == {}
    {
      visits := [];
      AddToWork(g.Search(start));
      TraversalStarts(g, start, workingSet, seenSet);
      while workingSet != []
        invariant Traversing(g, start, workingSet, seenSet, visits)
        decreases g.Values() - seenSet, |workingSet|
      {
        ghost var work, seen := workingSet, seenSet;
        var peeked := Peek();
        if peeked.None? {
          continue;
        }
        var user := peeked.value;
        TakenOut(work);
        assert workingSet == work[..|work| - 1];
        visits := visits + [user];
        if g.answer(user) == SKIP {
          PassedStep(g, start, work, seen, visits);
          continue;
        }
        if user in g.constants {
          PassedStep(g, start, work, seen, visits);
        } else {
          AddToWork(g.Search(user));
          FollowedStep(g, start, work, seen, visits, workingSet, seenSet);
        }
      }
      TraversalEnds(g, start, seenSet, visits);
      workingSet := [];
      seenSet := {};
    }
  }

  /** What has been seen is visited or waiting, is reachable, and holds what visited values lead to. */
  ghost predicate Traversing(g: Uses, start: Value, work: seq<Value>, seen: set<Value>, visits: seq<Value>) {
    && seen <= g.Values() && Distinct(work) && Distinct(visits)
    && (forall v :: v in seen <==> v in visits || v in work)
    && (forall v :: !(v in visits && v in work))
    && (forall v :: v in g.Search(start) ==> v in seen)
    && (forall v, w :: v in visits && g.Followed(v) && w in g.Search(v) ==> w in seen)
    && (forall v :: v in seen ==> Reaches(g, start, v))
  }

  lemma TraversalStarts(g: Uses, start: Value, work: seq<Value>, seen: set<Value>)
    requires work == NewOnes(g.Search(start), {}) && seen == set v | v in g.Search(start)
    ensures Traversing(g, start, work, seen, [])
  {
    NewOnesMeaning(g.Search(start), {});
    forall v | v in seen ensures Reaches(g, start, v) && v in g.Values() {
      ReachesFirst(g, start, v);
      FoundIsValue(g, start, v);
    }
  }

  /** The value taken out is visited, and nothing behind it is searched. */
  lemma PassedStep(g: Uses, start: Value, work: seq<Value>, seen: set<Value>, visits: seq<Value>)
    requires work != [] && visits != [] && visits[|visits| - 1] == work[|work| - 1]
    requires Traversing(g, start, work, seen, visits[..|visits| - 1]) && !g.Followed(work[|work| - 1])
    ensures Traversing(g, start, work[..|work| - 1], seen, visits)
  {
    TakenOut(work);
    assert visits == visits[..|visits| - 1] + [work[|work| - 1]];
  }

  /** The value taken out is visited, and what it leads to is put to work. */
  lemma FollowedStep(g: Uses, start: Value, work: seq<Value>, seen: set<Value>, visits: seq<Value>,
                     work': seq<Value>, seen': set<Value>)
    requires work != [] && visits != [] && visits[|visits| - 1] == work[|work| - 1]
    requires Traversing(g, start, work, seen, visits[..|visits| - 1]) && g.Followed(work[|work| - 1])
    requires var rest, found := work[..|work| - 1], g.Search(work[|work| - 1]);
             work' == rest + NewOnes(found, seen) && seen' == seen + set v | v in found
    ensures Traversing(g, start, work', seen', visits)
    ensures seen' == seen ==> |work'| < |work|
  {
    var user, rest, found := work[|work| - 1], work[..|work| - 1], g.Search(work[|work| - 1]);
    TakenOut(work);
    NewOnesMeaning(found, seen);
    AppendNew(rest, NewOnes(found, seen));
    assert visits == visits[..|visits| - 1] + [user];
    forall w | w in found ensures Reaches(g, start, w) && w in g.Values() {
      ReachesOn(g, start, user, w);
      FoundIsValue(g, user, w);
    }
    NothingNew(found, seen);
  }

  lemma NothingNew(vals: seq<Value>, seen: set<Value>)
    ensures (forall v :: v in vals ==> v in seen) ==> NewOnes(vals, seen) == []
  {
    NewOnesMeaning(vals, seen);
    if NewOnes(vals, seen) != [] {
      assert NewOnes(vals, seen)[0] in NewOnes(vals, seen);
    }
  }

  lemma AppendNew(a: seq<Value>, b: seq<Value>)
    requires Distinct(a) && Distinct(b) && forall v :: v in b ==> v !in a
    ensures Distinct(a + b)
  {
    forall i, j | 0 <= i < j < |a + b| ensures (a + b)[i] != (a + b)[j] {
      if i < |a| && j >= |a| {
        assert (a + b)[j] in b;
      }
    }
  }

  lemma TraversalEnds(g: Uses, start: Value, seen: set<Value>, visits: seq<Value>)
    requires Traversing(g, start, [], seen, visits)
    ensures forall v :: v in visits <==> Reaches(g, start, v)
  {
    forall v | Reaches(g, start, v) ensures v in visits {
      var p :| IsWalk(g, p) && p[0] == start && p[|p| - 1] == v;
      ClosedHoldsReachable(g, p, seen);
    }
  }

  lemma TakenOut(work: seq<Value>)
    requires work != [] && Distinct(work)
    ensures var rest := work[..|work| - 1];
            Distinct(rest) && work[|work| - 1] !in rest
            && forall v :: v in work <==> v in rest || v == work[|work| - 1]
  {
    assert work == work[..|work| - 1] + [work[|work| - 1]];
  }

  lemma FoundIsValue(g: Uses, v: Value, w: Value)
    requires w in g.Search(v)
    ensures w in g.Values()
  {
    var i :| 0 <= i < |g.found[v]| && g.found[v][i] == w;
  }
}
