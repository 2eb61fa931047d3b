/** Kahn's algorithm grouped into stages, over maps iterated in an arbitrary order. */
module TopologicalSort {
  import opened Wrappers
  import opened Sequences
  import opened DependencyGraph

  datatype SortError = MissingDependency(node: TypeKey, dependency: TypeKey) | CycleDetected

  /** How many entries of a dependency list, duplicates included, are still waiting in `remaining`. */
  function Waiting(deps: seq<TypeKey>, remaining: set<TypeKey>): nat {
    if deps == [] then 0
    else (if deps[0] in remaining then 1 else 0) + Waiting(deps[1..], remaining)
  }

  lemma {:induction false} WaitingZero(deps: seq<TypeKey>, remaining: set<TypeKey>)
    ensures Waiting(deps, remaining) == 0 <==> forall d :: d in deps ==> d !in remaining
  {
    if deps != [] {
      WaitingZero(deps[1..], remaining);
      assert deps == [deps[0]] + deps[1..];
    }
  }

  lemma {:induction false} WaitingAll(deps: seq<TypeKey>, remaining: set<TypeKey>)
    requires forall d :: d in deps ==> d in remaining
    ensures Waiting(deps, remaining) == |deps|
  {
    if deps != [] {
      WaitingAll(deps[1..], remaining);
    }
  }

  lemma {:induction false} WaitingWithout(deps: seq<TypeKey>, remaining: set<TypeKey>, k: TypeKey)
    requires k in remaining
    ensures Waiting(deps, remaining - {k}) == Waiting(deps, remaining) - multiset(deps)[k]
  {
    if deps != [] {
      WaitingWithout(deps[1..], remaining, k);
      assert deps == [deps[0]] + deps[1..];
      assert multiset(deps)[k] == multiset([deps[0]])[k] + multiset(deps[1..])[k];
    }
  }

  /** A map counts, for each remaining node, its waiting dependencies, and knows no other node. */
  ghost predicate Counts(g: Graph, inDegree: map<TypeKey, int>, remaining: set<TypeKey>) {
    && remaining <= g.Keys
    && inDegree.Keys == remaining
    && forall k :: k in remaining ==> inDegree[k] == Waiting(g[k], remaining)
  }

  /** Reading a Go map: a missing key counts as zero. */
  function Degree(m: map<TypeKey, int>, k: TypeKey): int {
    if k in m then m[k] else 0
  }

  ghost function Occurrences(g: Graph, k: TypeKey, key: TypeKey): nat {
    if k in g then multiset(g[k])[key] else 0
  }

  /** The error names a dependency that some node lists and that is not registered. */
  ghost predicate NamesMissing(g: Graph, e: SortError) {
    e.MissingDependency? && Depends(g, e.node, e.dependency) && e.dependency !in g
  }

  method InDegrees(g: Graph) returns (r: Result<map<TypeKey, int>, SortError>)
    ensures r.Ok? <==> Registered(g)
    ensures r.Ok? ==> Counts(g, r.value, g.Keys)
    ensures r.Err? ==> NamesMissing(g, r.error)
  {
    var inDegree: map<TypeKey, int> := map k | k in g :: 0;
    var todo := g.Keys;
    while todo != {}
      invariant todo <= g.Keys && inDegree.Keys == g.Keys
      invariant forall k :: k in g && k !in todo ==> inDegree[k] == |g[k]|
      invariant forall k, d :: k in g && k !in todo && d in g[k] ==> d in g
    {
      var key :| key in todo;
      var deps := g[key];
      for i := 0 to |deps|
        invariant forall j :: 0 <= j < i ==> deps[j] in g
      {
        if deps[i] !in g {
          return Err(MissingDependency(key, deps[i]));
        }
      }
      inDegree := inDegree[key := |deps|];
      todo := todo - {key};
    }
    forall k | k in g ensures inDegree[k] == Waiting(g[k], g.Keys) {
      WaitingAll(g[k], g.Keys);
    }
    r := Ok(inDegree);
  }

  method ZeroDegree(inDegree: map<TypeKey, int>) returns (stage: seq<TypeKey>)
    ensures Distinct(stage)
    ensures forall k :: k in stage <==> k in inDegree && inDegree[k] == 0
  {
    stage := [];
    var todo := inDegree.Keys;
    while todo != {}
      invariant todo <= inDegree.Keys && Distinct(stage)
      invariant forall k :: k in stage <==> k in inDegree && k !in todo && inDegree[k] == 0
    {
      var key :| key in todo;
      if inDegree[key] == 0 {
        stage := stage + [key];
      }
      todo := todo - {key};
    }
  }

  ghost predicate Depends(g: Graph, k: TypeKey, key: TypeKey) {
    k in g && key in g[k]
  }

  /** The inner loop over one dependency list. */
  method DecrementOccurrences(deps: seq<TypeKey>, key: TypeKey, dependent: TypeKey, before: map<TypeKey, int>)
    returns (inDegree: map<TypeKey, int>)
    ensures inDegree == if key in deps then before[dependent := Degree(before, dependent) - multiset(deps)[key]] else before
  {
    inDegree := before;
    for i := 0 to |deps|
      invariant inDegree ==
        if key in deps[..i] then before[dependent := Degree(before, dependent) - multiset(deps[..i])[key]] else before
    {
      assert deps[..i + 1] == deps[..i] + [deps[i]];
      assert multiset(deps[..i + 1])[key] == multiset(deps[..i])[key] + (if deps[i] == key then 1 else 0);
      if deps[i] == key {
        inDegree := inDegree[dependent := Degree(inDegree, dependent) - 1];
      }
    }
    assert deps[..|deps|] == deps;
  }

  /** Visits every node's dependency list and decrements the node once per occurrence of `key`. */
  method DecrementDependents(g: Graph, key: TypeKey, before: map<TypeKey, int>) returns (inDegree: map<TypeKey, int>)
    ensures forall k :: k in inDegree <==> k in before || Depends(g, k, key)
    ensures forall k :: Degree(inDegree, k) == Degree(before, k) - Occurrences(g, k, key)
  {
    inDegree := before;
    var todo := g.Keys;
    while todo != {}
      invariant todo <= g.Keys
      invariant forall k :: k in inDegree <==> k in before || (k !in todo && Depends(g, k, key))
      invariant forall k :: Degree(inDegree, k) == Degree(before, k) - if k in todo then 0 else Occurrences(g, k, key)
    {
      var dependent :| dependent in todo;
      inDegree := DecrementOccurrences(g[dependent], key, dependent, inDegree);
      todo := todo - {dependent};
    }
  }

  /** Deletes one node and lowers its dependents, none of which may have been deleted before. */
  method RemoveNode(g: Graph, key: TypeKey, before: map<TypeKey, int>, ghost left: set<TypeKey>)
    returns (inDegree: map<TypeKey, int>)
    requires Counts(g, before, left) && key in left
    requires forall k :: Depends(g, k, key) ==> k in left && k != key
    ensures Counts(g, inDegree, left - {key})
  {
    var deleted := before - {key};
    inDegree := DecrementDependents(g, key, deleted);
    assert inDegree.Keys == left - {key};
    forall k | k in left - {key} ensures inDegree[k] == Waiting(g[k], left - {key}) {
      WaitingWithout(g[k], left, key);
      assert Degree(inDegree, k) == inDegree[k] && Degree(deleted, k) == deleted[k];
    }
  }

  /** `stage` lists the nodes of `all` that wait for nothing, and nothing outside `all` waits for a node inside it. */
  ghost predicate Removable(g: Graph, stage: seq<TypeKey>, all: set<TypeKey>) {
    && Distinct(stage)
    && Detached(g, all)
    && forall k :: k in stage <==> k in all && k in g && Waiting(g[k], all) == 0
  }

  /**
   * Removes a stage. No dependency list of an already removed node mentions a remaining one, so
   * the decrements never bring a deleted key back.
   */
  method RemoveStage(g: Graph, stage: seq<TypeKey>, before: map<TypeKey, int>, count: nat, ghost all: set<TypeKey>)
    returns (inDegree: map<TypeKey, int>, remaining: nat)
    requires Counts(g, before, all) && count == |all| && Removable(g, stage, all)
    ensures Counts(g, inDegree, all - Elements(stage))
    ensures remaining == |all - Elements(stage)| && (stage != [] ==> remaining < count)
  {
    hide Removable, Counts;
    inDegree, remaining := before, count;
    ghost var left := all;
    for i := 0 to |stage|
      invariant left == all - FirstElements(stage, i)
      invariant Counts(g, inDegree, left) && remaining == |left| && (i > 0 ==> remaining < count)
    {
      MembersNext(g, stage, i, all);
      StageMemberLeft(g, stage, i, all);
      inDegree := RemoveNode(g, stage[i], inDegree, left);
      remaining := remaining - 1;
      left := left - {stage[i]};
    }
    ElementsAll(stage);
  }

  /** Nothing deleted comes back: a node of the stage and all its dependents are still left when it is removed. */
  lemma StageMemberLeft(g: Graph, stage: seq<TypeKey>, i: nat, all: set<TypeKey>)
    requires Removable(g, stage, all) && i < |stage|
    ensures stage[i] in all - FirstElements(stage, i)
    ensures forall k :: Depends(g, k, stage[i]) ==> k in all - FirstElements(stage, i) && k != stage[i]
  {
    assert stage[i] in stage;
    forall k | Depends(g, k, stage[i]) ensures k in all && k !in stage {
      if k in stage {
        WaitingZero(g[k], all);
      }
    }
  }

  ghost function FirstElements(stage: seq<TypeKey>, n: nat): set<TypeKey>
    requires n <= |stage|
  {
    Elements(stage[..n])
  }

  lemma ElementsAll(stage: seq<TypeKey>)
    ensures FirstElements(stage, |stage|) == Elements(stage)
  {
    assert stage[..|stage|] == stage;
  }

  lemma MembersNext(g: Graph, stage: seq<TypeKey>, i: nat, all: set<TypeKey>)
    requires Removable(g, stage, all) && i < |stage|
    ensures stage[i] !in FirstElements(stage, i)
    ensures FirstElements(stage, i + 1) == FirstElements(stage, i) + {stage[i]}
  {
    assert stage[..i + 1] == stage[..i] + [stage[i]];
  }

  /** No node outside `all` depends on a node inside it. */
  ghost predicate Detached(g: Graph, all: set<TypeKey>) {
    forall k, d {:trigger d in g[k], k in all} {:trigger d in g[k], d in all} :: k in g && k !in all && d in g[k] ==> d !in all
  }

  /** `stages` are the first stages, and `left` the nodes that come after them. */
  ghost predicate FirstStages(g: Graph, stages: seq<seq<TypeKey>>, left: set<TypeKey>) {
    && left <= g.Keys
    && (forall k :: k in left <==> ChainTo(g, |stages|, k))
    && (forall n :: 0 <= n < |stages| ==> StageAt(g, n, stages[n]) && stages[n] != [])
    && (forall k :: k in g && k !in left ==> InEarlier(stages, |stages|, k))
  }

  lemma FirstStagesDetached(g: Graph, stages: seq<seq<TypeKey>>, left: set<TypeKey>)
    requires Registered(g) && FirstStages(g, stages, left)
    ensures Detached(g, left)
  {
    forall k, d | k in g && k !in left && d in g[k] ensures d !in left {
      if d in left {
        assert ChainTo(g, |stages| + 1, k);
        ChainShorter(g, |stages|, |stages| + 1, k);
      }
    }
  }

  /** With `left` the nodes that a chain of `n` leads to, those of a longer one depend on some of them. */
  lemma LongerChain(g: Graph, n: nat, left: set<TypeKey>, k: TypeKey)
    requires Registered(g) && left <= g.Keys && forall j :: j in left <==> ChainTo(g, n, j)
    ensures ChainTo(g, n + 1, k) <==> k in left && DependsWithin(g, left, k)
  {
    if ChainTo(g, n + 1, k) {
      ChainShorter(g, n, n + 1, k);
      var d :| d in g[k] && ChainTo(g, n, d);
      assert d in left;
    }
  }

  lemma EarlierNext(stages: seq<seq<TypeKey>>, stage: seq<TypeKey>, k: TypeKey)
    requires k in stage || InEarlier(stages, |stages|, k)
    ensures InEarlier(stages + [stage], |stages| + 1, k)
  {
    var all := stages + [stage];
    if k in stage {
      assert k in all[|stages|];
    } else {
      var m :| 0 <= m < |stages| && k in stages[m];
      assert k in all[m];
    }
  }

  lemma NextStageAt(g: Graph, n: nat, left: set<TypeKey>, stage: seq<TypeKey>)
    requires Registered(g) && left <= g.Keys && forall j :: j in left <==> ChainTo(g, n, j)
    requires Distinct(stage) && forall k :: k in stage <==> k in left && !DependsWithin(g, left, k)
    ensures StageAt(g, n, stage)
    ensures forall k :: k in left - Elements(stage) <==> ChainTo(g, n + 1, k)
  {
    hide Registered, ChainTo, DependsWithin, Distinct;
    forall k ensures ChainTo(g, n + 1, k) <==> k in left && DependsWithin(g, left, k) {
      LongerChain(g, n, left, k);
    }
  }

  lemma NextStage(g: Graph, stages: seq<seq<TypeKey>>, left: set<TypeKey>, stage: seq<TypeKey>)
    requires Registered(g) && FirstStages(g, stages, left)
    requires Distinct(stage) && stage != []
    requires forall k :: k in stage <==> k in left && !DependsWithin(g, left, k)
    ensures FirstStages(g, stages + [stage], left - Elements(stage))
  {
    hide Registered, ChainTo, DependsWithin, Distinct, StageAt, InEarlier;
    var n := |stages|;
    NextStageAt(g, n, left, stage);
    forall k | k in g && k !in left - Elements(stage) ensures InEarlier(stages + [stage], n + 1, k) {
      EarlierNext(stages, stage, k);
    }
  }

  lemma StageRemovable(g: Graph, stages: seq<seq<TypeKey>>, inDegree: map<TypeKey, int>, left: set<TypeKey>, stage: seq<TypeKey>)
    requires Registered(g) && FirstStages(g, stages, left) && Counts(g, inDegree, left)
    requires Distinct(stage) && forall k :: k in stage <==> k in inDegree && inDegree[k] == 0
    ensures Removable(g, stage, left)
    ensures stage != [] ==> FirstStages(g, stages + [stage], left - Elements(stage))
    ensures stage == [] && left != {} ==> HasCycle(g)
  {
    forall k | k in left ensures k in stage <==> !DependsWithin(g, left, k) {
      WaitingZero(g[k], left);
    }
    FirstStagesDetached(g, stages, left);
    if stage != [] {
      NextStage(g, stages, left, stage);
    } else if left != {} {
      ClosedSetHasCycle(g, left);
    }
  }

  lemma NoStagesYet(g: Graph)
    ensures FirstStages(g, [], g.Keys)
  {}

  lemma NothingLeft(g: Graph, stages: seq<seq<TypeKey>>)
    requires FirstStages(g, stages, {})
    ensures Canonical(g, stages) && !HasCycle(g)
  {
    forall k | k in g ensures exists n :: 0 <= n < |stages| && k in stages[n] {
      assert InEarlier(stages, |stages|, k);
    }
    CanonicalAcyclic(g, stages);
  }

  method TopologicalSort(g: Graph) returns (r: Result<seq<seq<TypeKey>>, SortError>)
    ensures r.Ok? <==> Registered(g) && !HasCycle(g)
    ensures r.Ok? ==> Canonical(g, r.value)
    ensures r.Err? && Registered(g) ==> r.error == CycleDetected
    ensures r.Err? && !Registered(g) ==> NamesMissing(g, r.error)
  {
    var degrees := InDegrees(g);
    if degrees.Err? {
      return Err(degrees.error);
    }
    hide FirstStages, Removable, Counts, Canonical;
    var inDegree := degrees.value;
    var stages: seq<seq<TypeKey>> := [];
    var remaining := |g|;
    ghost var left := g.Keys;
    assert FirstStages(g, stages, left) by { NoStagesYet(g); }
    while remaining > 0
      invariant Counts(g, inDegree, left) && remaining == |left|
      invariant FirstStages(g, stages, left)
      decreases remaining
    {
      var stage := ZeroDegree(inDegree);
      StageRemovable(g, stages, inDegree, left, stage);
      if |stage| == 0 {
        return Err(CycleDetected);
      }
      stages := stages + [stage];
      inDegree, remaining := RemoveStage(g, stage, inDegree, remaining, left);
      left := left - Elements(stage);
    }
    NothingLeft(g, stages);
    r := Ok(stages);
  }
}
