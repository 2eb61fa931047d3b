/** What a finished run holds for every node, said of the functions of the node alone; and what no-fetch mode changes. */
module RunResults {
  import opened Wrappers
  import opened Sequences
  import opened DependencyGraph
  import opened AnalysisInput
  import opened Execution
  import opened RunInvariants
  import opened RunLog
  import opened RunOutcome

  // ---- What a node leaves behind

  ghost predicate FirstSkipped(deps: seq<TypeKey>, skipped: map<TypeKey, string>, m: nat) {
    m < |deps| && deps[m] in skipped && forall j :: 0 <= j < m ==> deps[j] !in skipped
  }

  /** The node was skipped for its first skipped dependency, with that one's reason or, if it gave none, a stock one. */
  ghost predicate SkippedForDependency(node: Node, k: TypeKey, start: Boundary, end: Boundary) {
    exists m: nat :: FirstSkipped(node.dependencyKeys, end.skipped, m)
      && k in end.skipped && k in end.ctx
      && end.skipped[k] == SkipReason(end.skipped[node.dependencyKeys[m]])
      && end.ctx[k] == node.skippedOutput(end.skipped[k], start.input)
  }

  function SkipReason(reason: string): string {
    if reason == "" then "dependency was skipped" else reason
  }

  /** What the node produced was recorded as a skip if it said so, and otherwise overridden and stored. */
  ghost predicate Recorded(c: Config, k: TypeKey, produced: Result<Output, string>, end: Boundary) {
    && produced.Ok? && k in end.ctx
    && if produced.value.status == Skipped then
         end.ctx[k] == produced.value && k in end.skipped && end.skipped[k] == produced.value.reason
       else
         c.applyOverrides(produced.value) == Ok(end.ctx[k]) && k !in end.skipped
  }

  // ---- A boundary keeps what earlier stages left

  lemma FoldLeaves(c: Config, b: Boundary, done: set<TypeKey>, t: Boundary, k: TypeKey)
    requires FoldedTo(c, b, done, t) && k in b.ctx + t.ctx
    ensures k in t.ctx && (k !in done ==> k in b.ctx && t.ctx[k] == b.ctx[k])
    ensures k !in done ==> (k in t.skipped <==> k in b.skipped) && (k in t.skipped ==> t.skipped[k] == b.skipped[k])
  {
    hide Folds, StoredAt, SkippedAt, MergeOf, Offers, OutcomeAt;
  }

  lemma {:induction false} NodeKept(c: Config, h: seq<Boundary>, i: nat, j: nat, k: TypeKey)
    requires WellFormed(c) && IsHistory(c, h) && i < j < |h| && k in c.stages[i]
    ensures k in h[j].ctx && k in h[i + 1].ctx && h[j].ctx[k] == h[i + 1].ctx[k]
    ensures k in h[j].skipped <==> k in h[i + 1].skipped
    ensures k in h[j].skipped ==> h[j].skipped[k] == h[i + 1].skipped[k]
    decreases j
  {
    hide WellFormed, FoldedTo;
    assert FoldedTo(c, h[j - 1], Elements(c.stages[j - 1]), h[j]);
    FoldedKeys(c, h[j - 1], Elements(c.stages[j - 1]), h[j]);
    if j > i + 1 {
      NodeKept(c, h, i, j - 1, k);
      FoldLeaves(c, h[j - 1], Elements(c.stages[j - 1]), h[j], k);
      StagesCanonical(c);
      if k in c.stages[j - 1] { CanonicalOneStage(Dependencies(c.nodes), c.stages, i, j - 1, k); }
    }
  }

  lemma StagesCanonical(c: Config)
    requires WellFormed(c)
    ensures Canonical(Dependencies(c.nodes), c.stages)
  {}

  lemma {:induction false} IdentityKept(c: Config, h: seq<Boundary>, i: nat)
    requires IsHistory(c, h) && i < |h|
    ensures h[i].input.identity == h[0].input.identity
  {
    hide Outcome, Offers;
    if i > 0 {
      IdentityKept(c, h, i - 1);
      assert FoldedTo(c, h[i - 1], Elements(c.stages[i - 1]), h[i]);
    }
  }

  ghost predicate AgreeOn(a: Boundary, b: Boundary, k: TypeKey) {
    (k in a.skipped <==> k in b.skipped) && (k in a.skipped ==> a.skipped[k] == b.skipped[k])
  }

  /** From the start of a node's stage on, the skips recorded for its dependencies stay. */
  lemma DependencyKept(c: Config, h: seq<Boundary>, i: nat, j: nat, k: TypeKey, d: TypeKey)
    requires WellFormed(c) && IsHistory(c, h) && i <= j < |h|
    requires i < |c.stages| && k in c.stages[i] && k in c.nodes && d in c.nodes[k].dependencyKeys
    ensures AgreeOn(h[i], h[j], d)
  {
    hide WellFormed, IsHistory;
    DependencyEarlier(c, i, k, d);
    EarlierMember(c, i, d);
    var m :| 0 <= m < i && d in c.stages[m];
    NodeKept(c, h, m, i, d);
    NodeKept(c, h, m, j, d);
  }

  lemma {:induction false} DependencySkipIsFirst(deps: seq<TypeKey>, skipped: map<TypeKey, string>)
    ensures DependencySkip(deps, skipped).Some? ==>
      exists m: nat :: FirstSkipped(deps, skipped, m) && DependencySkip(deps, skipped).value == skipped[deps[m]]
  {
    if deps != [] {
      if deps[0] in skipped {
        assert FirstSkipped(deps, skipped, 0);
      } else {
        DependencySkipIsFirst(deps[1..], skipped);
        if m: nat :| DependencySkip(deps[1..], skipped).Some? && FirstSkipped(deps[1..], skipped, m)
                     && DependencySkip(deps[1..], skipped).value == skipped[deps[1..][m]] {
          assert FirstSkipped(deps, skipped, m + 1);
        }
      }
    }
  }

  // ---- One node of a stage

  ghost predicate SomeDependencySkipped(node: Node, skipped: map<TypeKey, string>) {
    exists d :: d in node.dependencyKeys && d in skipped
  }

  lemma SameFirst(node: Node, a: Boundary, b: Boundary)
    requires forall d :: d in node.dependencyKeys ==> AgreeOn(a, b, d)
    ensures SomeDependencySkipped(node, a.skipped) <==> SomeDependencySkipped(node, b.skipped)
    ensures forall m: nat :: FirstSkipped(node.dependencyKeys, a.skipped, m) ==>
      FirstSkipped(node.dependencyKeys, b.skipped, m) && a.skipped[node.dependencyKeys[m]] == b.skipped[node.dependencyKeys[m]]
  {
    var deps := node.dependencyKeys;
    forall j | 0 <= j < |deps| ensures AgreeOn(a, b, deps[j]) { assert deps[j] in deps; }
  }

  /** What the node produces when it runs: what it reads in no-fetch mode if it fetches, else what it executes. */
  ghost predicate Produces(node: Node, noFetch: bool, start: Boundary, produced: Result<Output, string>) {
    if noFetch && node.isFetch then node.read.Some? && produced == node.read.value(start.ctx, start.input)
    else produced == node.execute(start.ctx, start.input)
  }

  ghost predicate NodeResult(c: Config, noFetch: bool, k: TypeKey, start: Boundary, end: Boundary)
    requires k in c.nodes
  {
    var node := c.nodes[k];
    if node.allowAutoSkip && SomeDependencySkipped(node, end.skipped) then SkippedForDependency(node, k, start, end)
    else exists produced :: Produces(node, noFetch, start, produced) && Recorded(c, k, produced, end)
  }

  lemma SkipIsSome(node: Node, skipped: map<TypeKey, string>)
    ensures DependencySkip(node.dependencyKeys, skipped).Some? <==> SomeDependencySkipped(node, skipped)
  {
    DependencySkipFinds(node.dependencyKeys, skipped);
  }

  /** What folding records for a node, as its outcome says. */
  ghost predicate HoldsOutcome(c: Config, b: Boundary, t: Boundary, k: TypeKey) {
    && Folds(c, b, k) && k in t.ctx && t.ctx[k] == StoredAt(c, b, k)
    && (k in t.skipped <==> SkippedAt(c, b, k))
    && (k in t.skipped ==> t.skipped[k] == OutcomeAt(c, b, k).value.skipReason)
  }

  lemma RunGives(c: Config, b: Boundary, t: Boundary, k: TypeKey)
    requires HoldsOutcome(c, b, t, k) && !AutoSkips(c.nodes[k], b.skipped)
    ensures exists produced :: Produces(c.nodes[k], b.input.identity.noFetch, b, produced) && Recorded(c, k, produced, t)
  {
    var node := c.nodes[k];
    var produced := if b.input.identity.noFetch && node.isFetch then node.read.value(b.ctx, b.input) else node.execute(b.ctx, b.input);
    assert Produces(node, b.input.identity.noFetch, b, produced);
    assert Recorded(c, k, produced, t);
  }

  lemma SkipGives(c: Config, b: Boundary, t: Boundary, k: TypeKey, reason: string)
    requires HoldsOutcome(c, b, t, k) && AutoSkips(c.nodes[k], b.skipped)
    requires DependencySkip(c.nodes[k].dependencyKeys, b.skipped) == Some(reason)
    ensures k in t.skipped && t.skipped[k] == SkipReason(reason) && t.ctx[k] == c.nodes[k].skippedOutput(t.skipped[k], b.input)
  {}

  /** The node's part of folding its own stage. */
  lemma FoldGives(c: Config, b: Boundary, done: set<TypeKey>, t: Boundary, k: TypeKey)
    requires FoldedTo(c, b, done, t) && k in done && k !in b.skipped && k in c.nodes
    requires forall d :: d in c.nodes[k].dependencyKeys ==> AgreeOn(b, t, d)
    ensures NodeResult(c, b.input.identity.noFetch, k, b, t)
  {
    var node := c.nodes[k];
    var deps := node.dependencyKeys;
    FoldedNode(c, b, done, t, k);
    DependencySkipIsFirst(deps, b.skipped);
    SameFirst(node, b, t);
    SkipIsSome(node, b.skipped);
    hide FoldedTo, AgreeOn, FirstSkipped, SomeDependencySkipped, Produces, Recorded, DependencySkip, OutcomeAt, StoredAt;
    if AutoSkips(node, b.skipped) {
      var m: nat :| FirstSkipped(deps, b.skipped, m) && DependencySkip(deps, b.skipped).value == b.skipped[deps[m]];
      SkipGives(c, b, t, k, b.skipped[deps[m]]);
    } else {
      RunGives(c, b, t, k);
    }
  }

  lemma FoldedNode(c: Config, b: Boundary, done: set<TypeKey>, t: Boundary, k: TypeKey)
    requires FoldedTo(c, b, done, t) && k in done && k !in b.skipped
    ensures HoldsOutcome(c, b, t, k)
  {
    hide Outcome, MergeOf, Offers;
  }

  lemma ResultKept(c: Config, noFetch: bool, k: TypeKey, start: Boundary, t: Boundary, end: Boundary)
    requires k in c.nodes && NodeResult(c, noFetch, k, start, t)
    requires AgreeOn(t, end, k) && k in t.ctx && k in end.ctx && t.ctx[k] == end.ctx[k]
    requires forall d :: d in c.nodes[k].dependencyKeys ==> AgreeOn(t, end, d)
    ensures NodeResult(c, noFetch, k, start, end)
  {
    var node := c.nodes[k];
    SameFirst(node, t, end);
    hide SomeDependencySkipped;
    if node.allowAutoSkip && SomeDependencySkipped(node, t.skipped) {
      var m: nat :| FirstSkipped(node.dependencyKeys, t.skipped, m)
        && t.skipped[k] == SkipReason(t.skipped[node.dependencyKeys[m]]) && t.ctx[k] == node.skippedOutput(t.skipped[k], start.input);
      hide FirstSkipped;
      assert FirstSkipped(node.dependencyKeys, end.skipped, m);
    } else {
      var produced :| Produces(node, noFetch, start, produced) && Recorded(c, k, produced, t);
      assert Recorded(c, k, produced, end);
    }
  }

  lemma FinishedHistory(c: Config, b: Boundary, r: seq<State>)
    requires WellFormed(c) && IsRun(c, b, r) && r != [] && Last(r).phase.Finished?
    ensures var h := Last(r).history;
      IsHistory(c, h) && |h| == |c.stages| + 1 && h[0] == b && h[|c.stages|] == Last(r).now
  {
    RunKeeps(c, b, r, |r| - 1);
  }

  /**
   * After a finished run every node of every stage has either been skipped for its first skipped dependency, or has
   * produced an output from the boundary its stage started from: by reading, if it fetches and the run must not,
   * otherwise by executing. An output that says it is skipped is kept as it is; any other is stored overridden.
   */
  lemma FinishedNode(c: Config, b: Boundary, r: seq<State>, i: nat, k: TypeKey)
    requires WellFormed(c) && b.skipped == map[] && IsRun(c, b, r) && r != [] && Last(r).phase.Finished?
    requires i < |c.stages| && k in c.stages[i]
    ensures k in c.nodes && i < |Last(r).history|
    ensures NodeResult(c, b.input.identity.noFetch, k, Last(r).history[i], Last(r).now)
  {
    hide IsRun, WellFormed, IsHistory, FoldedTo, Outcome, Folds, NodeResult, AgreeOn;
    FinishedHistory(c, b, r);
    var h, n := Last(r).history, |c.stages|;
    StageNodes(c, i, k);
    HistoryKeys(c, h, i);
    StageNotEarlier(c, i, k);
    IdentityKept(c, h, i);
    NodeFolds(c, h, i, k);
    forall d | d in c.nodes[k].dependencyKeys ensures AgreeOn(h[i], h[i + 1], d) && AgreeOn(h[i + 1], h[n], d) {
      DependencyKept(c, h, i, i + 1, k, d);
      DependencyKept(c, h, i, n, k, d);
      Agreement(h[i], h[i + 1], h[n], d);
    }
    assert k in Elements(c.stages[i]);
    FoldGives(c, h[i], Elements(c.stages[i]), h[i + 1], k);
    NodeKept(c, h, i, n, k);
    assert AgreeOn(h[i + 1], h[n], k) by { KeptAgree(h[i + 1], h[n], k); }
    ResultKept(c, b.input.identity.noFetch, k, h[i], h[i + 1], h[n]);
  }

  lemma Agreement(a: Boundary, b: Boundary, c: Boundary, d: TypeKey)
    requires AgreeOn(a, b, d) && AgreeOn(a, c, d)
    ensures AgreeOn(b, c, d)
  {}

  lemma KeptAgree(a: Boundary, b: Boundary, k: TypeKey)
    requires (k in b.skipped <==> k in a.skipped) && (k in b.skipped ==> b.skipped[k] == a.skipped[k])
    ensures AgreeOn(a, b, k)
  {}

  /** Without fetching, no run finishes that has to run a fetch node which cannot read. */
  lemma FetchNeedsRead(c: Config, b: Boundary, r: seq<State>, i: nat, k: TypeKey)
    requires WellFormed(c) && b.skipped == map[] && IsRun(c, b, r) && r != [] && Last(r).phase.Finished?
    requires i < |c.stages| && k in c.stages[i] && k in c.nodes
    requires b.input.identity.noFetch && c.nodes[k].isFetch && c.nodes[k].read.None?
    ensures c.nodes[k].allowAutoSkip && SomeDependencySkipped(c.nodes[k], Last(r).now.skipped)
  {
    hide IsRun, WellFormed;
    FinishedNode(c, b, r, i, k);
  }

  // ---- What no-fetch mode leaves out of a run

  /** The same stages, overrides and nodes, up to what each pair of nodes is allowed to differ in. */
  ghost predicate SameNodesBut(c: Config, d: Config, same: (Node, Node) -> bool) {
    && d.stages == c.stages && d.applyOverrides == c.applyOverrides && d.nodes.Keys == c.nodes.Keys
    && forall k :: k in c.nodes ==> same(c.nodes[k], d.nodes[k])
  }

  /** Equal nodes, or fetch nodes that differ in what they execute. */
  ghost predicate SameButFetching(m: Node, n: Node) {
    n == m || (m.isFetch && n == m.(execute := n.execute))
  }

  ghost predicate SameButReading(m: Node, n: Node) {
    n == m.(read := n.read)
  }

  /** No outcome tells the two configurations apart, in the one mode. */
  ghost predicate SameOutcomes(c: Config, d: Config, noFetch: bool) {
    && d.stages == c.stages && d.applyOverrides == c.applyOverrides && d.nodes.Keys == c.nodes.Keys
    && forall k, ctx, input: InputValue, skipped {:trigger Outcome(c.nodes[k], ctx, input, skipped)} ::
         k in c.nodes && input.identity.noFetch == noFetch ==>
         Outcome(c.nodes[k], ctx, input, skipped) == Outcome(d.nodes[k], ctx, input, skipped)
  }

  lemma StepSame(c: Config, d: Config, s: State, step: Step, t: State)
    requires SameOutcomes(c, d, s.now.input.identity.noFetch) && Allowed(c, s, step, t)
    ensures Allowed(d, s, step, t) && t.now.input.identity == s.now.input.identity
  {
    hide Outcome;
  }

  lemma {:induction false} RunSame(c: Config, d: Config, b: Boundary, r: seq<State>, i: nat)
    requires SameOutcomes(c, d, b.input.identity.noFetch) && IsRun(c, b, r) && i < |r|
    ensures r[i].now.input.identity == b.input.identity
    ensures i > 0 ==> Next(d, r[i - 1], r[i])
    decreases i
  {
    hide SameOutcomes, Allowed;
    if i > 0 {
      RunSame(c, d, b, r, i - 1);
      assert Next(c, r[i - 1], r[i]);
      var step :| Allowed(c, r[i - 1], step, r[i]);
      StepSame(c, d, r[i - 1], step, r[i]);
    }
  }

  lemma SameRuns(c: Config, d: Config, b: Boundary, r: seq<State>)
    requires SameOutcomes(c, d, b.input.identity.noFetch) && IsRun(c, b, r)
    ensures IsRun(d, b, r)
  {
    hide SameOutcomes;
    forall i | 0 < i < |r| ensures Next(d, r[i - 1], r[i]) { RunSame(c, d, b, r, i); }
  }

  /** In no-fetch mode it makes no difference what fetch nodes would execute. */
  lemma NoFetchNeverExecutes(c: Config, d: Config, b: Boundary, r: seq<State>)
    requires SameNodesBut(c, d, SameButFetching) && b.input.identity.noFetch
    ensures IsRun(c, b, r) <==> IsRun(d, b, r)
  {
    hide IsRun;
    assert SameOutcomes(c, d, true) && SameOutcomes(d, c, true);
    if IsRun(c, b, r) { SameRuns(c, d, b, r); }
    if IsRun(d, b, r) { SameRuns(d, c, b, r); }
  }

  /** In the ordinary mode it makes no difference what nodes would read. */
  lemma FetchNeverReads(c: Config, d: Config, b: Boundary, r: seq<State>)
    requires SameNodesBut(c, d, SameButReading) && !b.input.identity.noFetch
    ensures IsRun(c, b, r) <==> IsRun(d, b, r)
  {
    hide IsRun;
    assert SameOutcomes(c, d, false) && SameOutcomes(d, c, false);
    if IsRun(c, b, r) { SameRuns(c, d, b, r); }
    if IsRun(d, b, r) { SameRuns(d, c, b, r); }
  }
}
