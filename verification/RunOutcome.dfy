/** The result of a run does not depend on goroutine or map order, and its skipped set is determined. */
module RunOutcome {
  import opened Sequences
  import opened DependencyGraph
  import opened AnalysisInput
  import opened Execution
  import opened RunInvariants
  import opened RunLog

  // ---- The skipped set

  /** The node ran, was not skipped for a dependency, and itself reported that it was skipped. */
  ghost predicate ReportsSkip(c: Config, h: seq<Boundary>, k: TypeKey) {
    exists i :: 0 <= i < |c.stages| && i < |h| && k in c.stages[i] && ReportsSkipAt(c, h[i], k)
  }

  ghost predicate ReportsSkipAt(c: Config, b: Boundary, k: TypeKey) {
    Folds(c, b, k) && !AutoSkips(c.nodes[k], b.skipped) && SkippedAt(c, b, k)
  }

  ghost predicate DependsOnOneOf(node: Node, s: set<TypeKey>) {
    exists d :: d in node.dependencyKeys && d in s
  }

  ghost predicate SkipRule(c: Config, h: seq<Boundary>, s: set<TypeKey>) {
    && s <= c.nodes.Keys
    && forall k {:trigger k in s} {:trigger ReportsSkip(c, h, k)} :: k in c.nodes ==>
         (k in s <==> ReportsSkip(c, h, k) || (c.nodes[k].allowAutoSkip && DependsOnOneOf(c.nodes[k], s)))
  }

  lemma SkippedStep(c: Config, b: Boundary, done: set<TypeKey>, t: Boundary, k: TypeKey)
    requires FoldedTo(c, b, done, t)
    ensures k in t.skipped <==> k in b.skipped || (k in done && Folds(c, b, k) && SkippedAt(c, b, k))
  {
    hide Outcome, MergeOf;
  }

  lemma {:induction false} SkippedStable(c: Config, h: seq<Boundary>, i: nat, j: nat, k: TypeKey)
    requires WellFormed(c) && IsHistory(c, h) && i <= j < |h| && k in Earlier(c, i)
    ensures k in h[i].skipped <==> k in h[j].skipped
    decreases j
  {
    hide FoldedTo, WellFormed, Outcome;
    if i < j {
      SkippedStable(c, h, i, j - 1, k);
      SkippedStep(c, h[j - 1], Elements(c.stages[j - 1]), h[j], k);
      EarlierMember(c, i, k);
      EarlierMember(c, j - 1, k);
      if k in c.stages[j - 1] {
        StageNotEarlier(c, j - 1, k);
      }
    }
  }

  lemma SkippedAtRule(c: Config, b: Boundary, k: TypeKey)
    requires Folds(c, b, k)
    ensures SkippedAt(c, b, k) <==>
      ReportsSkipAt(c, b, k) || (c.nodes[k].allowAutoSkip && DependsOnOneOf(c.nodes[k], b.skipped.Keys))
  {
    DependencySkipFinds(c.nodes[k].dependencyKeys, b.skipped);
  }

  lemma NodeFolds(c: Config, h: seq<Boundary>, i: nat, k: TypeKey)
    requires IsHistory(c, h) && i + 1 < |h| && k in c.stages[i]
    ensures Folds(c, h[i], k) && FoldedTo(c, h[i], Elements(c.stages[i]), h[i + 1])
  {
    hide Outcome, MergeOf;
    assert FoldedTo(c, h[i + 1 - 1], Elements(c.stages[i]), h[i + 1]);
  }

  /** The recorded skips of a complete history obey the rule. */
  lemma SkippedObeysRule(c: Config, h: seq<Boundary>)
    requires WellFormed(c) && IsHistory(c, h) && |h| == |c.stages| + 1 && h[0].skipped == map[]
    ensures SkipRule(c, h, h[|c.stages|].skipped.Keys)
  {
    hide FoldedTo, WellFormed, Outcome, Folds, ReportsSkipAt, IsHistory;
    var n := |c.stages|;
    var s := h[n].skipped.Keys;
    HistoryKeys(c, h, n);
    AllEarlier(c);
    forall k | k in c.nodes
      ensures k in s <==> ReportsSkip(c, h, k) || (c.nodes[k].allowAutoSkip && DependsOnOneOf(c.nodes[k], s))
    {
      EarlierMember(c, n, k);
      var i :| 0 <= i < n && k in c.stages[i];
      NodeFolds(c, h, i, k);
      SkippedStep(c, h[i], Elements(c.stages[i]), h[i + 1], k);
      HistoryKeys(c, h, i);
      StageNotEarlier(c, i, k);
      EarlierMember(c, i + 1, k);
      SkippedStable(c, h, i + 1, n, k);
      SkippedAtRule(c, h[i], k);
      ReportsOnlyThere(c, h, i, k);
      forall d | d in c.nodes[k].dependencyKeys ensures d in h[i].skipped <==> d in s {
        DependencyEarlier(c, i, k, d);
        SkippedStable(c, h, i, n, d);
      }
      assert DependsOnOneOf(c.nodes[k], h[i].skipped.Keys) <==> DependsOnOneOf(c.nodes[k], s);
    }
  }

  lemma ReportsOnlyThere(c: Config, h: seq<Boundary>, i: nat, k: TypeKey)
    requires WellFormed(c) && i < |c.stages| && i < |h| && k in c.stages[i]
    ensures ReportsSkip(c, h, k) <==> ReportsSkipAt(c, h[i], k)
  {
    hide ReportsSkipAt;
    if j :| 0 <= j < |c.stages| && j < |h| && k in c.stages[j] && ReportsSkipAt(c, h[j], k) {
      CanonicalOneStage(Dependencies(c.nodes), c.stages, i, j, k);
    }
  }

  lemma {:induction false} SkipRuleUnique(c: Config, h: seq<Boundary>, s: set<TypeKey>, t: set<TypeKey>, i: nat, k: TypeKey)
    requires WellFormed(c) && SkipRule(c, h, s) && SkipRule(c, h, t)
    requires i < |c.stages| && k in c.stages[i]
    ensures k in s <==> k in t
    decreases i
  {
    hide WellFormed, ReportsSkip;
    StageNodes(c, i, k);
    forall d | d in c.nodes[k].dependencyKeys ensures d in s <==> d in t {
      DependencyEarlier(c, i, k, d);
      EarlierMember(c, i, d);
      var j :| 0 <= j < i && d in c.stages[j];
      SkipRuleUnique(c, h, s, t, j, d);
    }
  }

  /**
   * After a successful run the skipped nodes are the only set in which a node is skipped exactly
   * when it reported so itself, or may be auto-skipped and depends on a skipped node.
   */
  lemma SkippedSetDetermined(c: Config, b: Boundary, run: seq<State>, i: nat, s: set<TypeKey>)
    requires WellFormed(c) && b.skipped == map[] && IsRun(c, b, run) && i < |run| && run[i].phase.Finished?
    ensures SkipRule(c, run[i].history, s) <==> s == run[i].now.skipped.Keys
  {
    hide WellFormed, SkipRule;
    RunKeeps(c, b, run, i);
    var h := run[i].history;
    SkippedObeysRule(c, h);
    var t := run[i].now.skipped.Keys;
    if SkipRule(c, h, s) {
      AllEarlier(c);
      forall k | k in c.nodes ensures k in s <==> k in t {
        EarlierMember(c, |c.stages|, k);
        var j :| 0 <= j < |c.stages| && k in c.stages[j];
        SkipRuleUnique(c, h, s, t, j, k);
      }
      SkipRuleSubset(c, h, s);
      SkipRuleSubset(c, h, t);
    }
  }

  lemma SkipRuleSubset(c: Config, h: seq<Boundary>, s: set<TypeKey>)
    requires SkipRule(c, h, s)
    ensures s <= c.nodes.Keys
  {}

  // ---- Independence of order

  ghost predicate SameBoundary(a: Boundary, b: Boundary) {
    a.ctx == b.ctx && a.skipped == b.skipped && SameInput(a.input, b.input)
  }

  /** No node looks at the order of packages that differ only in their private flag. */
  ghost predicate OrderBlind(nodes: map<TypeKey, Node>) {
    forall k, ctx, x, y {:trigger nodes[k].execute(ctx, x), nodes[k].execute(ctx, y)} :: k in nodes && SameInput(x, y) ==>
      && nodes[k].execute(ctx, x) == nodes[k].execute(ctx, y)
      && (nodes[k].read.Some? ==> nodes[k].read.value(ctx, x) == nodes[k].read.value(ctx, y))
      && (forall reason :: nodes[k].skippedOutput(reason, x) == nodes[k].skippedOutput(reason, y))
  }

  /** Nodes of one stage never offer different source URLs or directories to an input that lacks one. */
  ghost predicate SiblingsAgree(c: Config, b: Boundary) {
    forall h: seq<Boundary> :: IsHistory(c, h) && h[0] == b && |h| <= |c.stages| ==>
      OffersAgree(h[|h| - 1].input, Offers(c, h[|h| - 1], Elements(c.stages[|h| - 1])))
  }

  lemma OutcomeSame(c: Config, a: Boundary, b: Boundary, k: TypeKey)
    requires OrderBlind(c.nodes) && SameBoundary(a, b) && k in c.nodes
    ensures OutcomeAt(c, a, k) == OutcomeAt(c, b, k)
    ensures Folds(c, a, k) <==> Folds(c, b, k)
    ensures OfferOf(c, a, k) == OfferOf(c, b, k)
  {
    hide SameInput;
    assert c.nodes[k].execute(a.ctx, a.input) == c.nodes[k].execute(b.ctx, b.input);
    assert a.input.identity == b.input.identity by { IdentitySame(a.input, b.input); }
  }

  lemma IdentitySame(a: InputValue, b: InputValue)
    requires SameInput(a, b)
    ensures a.identity == b.identity
  {}

  lemma StoredSameAt(c: Config, a: Boundary, b: Boundary, done: set<TypeKey>, s: Boundary, t: Boundary, k: TypeKey)
    requires a.ctx == b.ctx && a.skipped == b.skipped
    requires k in done ==> k in c.nodes && OutcomeAt(c, a, k) == OutcomeAt(c, b, k)
    requires FoldedTo(c, a, done, s) && FoldedTo(c, b, done, t)
    ensures (k in s.ctx <==> k in t.ctx) && (k in s.ctx ==> s.ctx[k] == t.ctx[k])
    ensures (k in s.skipped <==> k in t.skipped) && (k in s.skipped ==> s.skipped[k] == t.skipped[k])
  {
    hide OutcomeAt, MergeOf, Offers;
  }

  /** The part of a fold that no order can influence: what is stored and what is recorded as skipped. */
  lemma StoredSame(c: Config, a: Boundary, b: Boundary, done: set<TypeKey>, s: Boundary, t: Boundary)
    requires a.ctx == b.ctx && a.skipped == b.skipped
    requires forall k :: k in done ==> k in c.nodes && OutcomeAt(c, a, k) == OutcomeAt(c, b, k)
    requires FoldedTo(c, a, done, s) && FoldedTo(c, b, done, t)
    ensures s.ctx == t.ctx && s.skipped == t.skipped
  {
    hide OutcomeAt, FoldedTo;
    forall k
      ensures (k in s.ctx <==> k in t.ctx) && (k in s.ctx ==> s.ctx[k] == t.ctx[k])
      ensures (k in s.skipped <==> k in t.skipped) && (k in s.skipped ==> s.skipped[k] == t.skipped[k])
    {
      StoredSameAt(c, a, b, done, s, t, k);
    }
  }

  lemma FoldedSame(c: Config, a: Boundary, b: Boundary, done: set<TypeKey>, s: Boundary, t: Boundary)
    requires OrderBlind(c.nodes) && SameBoundary(a, b) && done <= c.nodes.Keys
    requires FoldedTo(c, a, done, s) && FoldedTo(c, b, done, t)
    requires OffersAgree(a.input, Offers(c, a, done))
    ensures SameBoundary(s, t)
  {
    assert MergeOf(a.input, Offers(c, a, done), s.input) && MergeOf(b.input, Offers(c, b, done), t.input);
    hide OutcomeAt, OfferOf, MergeOf, SameInput, OffersAgree, OrderBlind, FoldedTo;
    forall k | k in done
      ensures OutcomeAt(c, a, k) == OutcomeAt(c, b, k) && OfferOf(c, a, k) == OfferOf(c, b, k)
    {
      OutcomeSame(c, a, b, k);
    }
    assert Offers(c, a, done) == Offers(c, b, done);
    StoredSame(c, a, b, done, s, t);
    MergeUnique(a.input, b.input, Offers(c, a, done), s.input, t.input);
  }

  lemma {:induction false} HistoriesAgree(c: Config, g: seq<Boundary>, h: seq<Boundary>, i: nat)
    requires WellFormed(c) && OrderBlind(c.nodes) && IsHistory(c, g) && IsHistory(c, h)
    requires SameBoundary(g[0], h[0]) && SiblingsAgree(c, g[0])
    requires i < |g| && i < |h|
    ensures SameBoundary(g[i], h[i])
  {
    hide FoldedTo, WellFormed, OrderBlind, SameBoundary, OffersAgree;
    if i > 0 {
      HistoriesAgree(c, g, h, i - 1);
      var stage, before := c.stages[i - 1], g[..i];
      HistoryPrefix(c, g, i);
      assert before[|before| - 1] == g[i - 1] && before[0] == g[0];
      forall k | k in stage ensures k in c.nodes { StageNodes(c, i - 1, k); }
      FoldedSame(c, g[i - 1], h[i - 1], Elements(stage), g[i], h[i]);
    }
  }

  lemma HistoryPrefix(c: Config, h: seq<Boundary>, i: nat)
    requires IsHistory(c, h) && 0 < i <= |h|
    ensures IsHistory(c, h[..i])
  {
    hide FoldedTo;
    var p := h[..i];
    forall j | 0 < j < |p| ensures FoldedTo(c, p[j - 1], Elements(c.stages[j - 1]), p[j]) {
      assert p[j - 1] == h[j - 1] && p[j] == h[j];
    }
  }

  lemma FoldedOtherStages(c: Config, d: Config, b: Boundary, done: set<TypeKey>, t: Boundary)
    requires d == c.(stages := d.stages) && FoldedTo(d, b, done, t)
    ensures FoldedTo(c, b, done, t)
  {
    hide Outcome, MergeOf;
    assert Offers(c, b, done) == Offers(d, b, done) by {
      forall k ensures OfferOf(c, b, k) == OfferOf(d, b, k) {}
    }
  }

  lemma HistoryOtherStages(c: Config, d: Config, h: seq<Boundary>)
    requires WellFormed(c) && WellFormed(d) && d == c.(stages := d.stages) && IsHistory(d, h)
    ensures IsHistory(c, h) && |c.stages| == |d.stages|
  {
    hide FoldedTo;
    CanonicalUnique(Dependencies(c.nodes), c.stages, d.stages);
    forall i | 0 < i < |h| ensures FoldedTo(c, h[i - 1], Elements(c.stages[i - 1]), h[i]) {
      MultisetMembers(c.stages[i - 1], d.stages[i - 1]);
      assert Elements(c.stages[i - 1]) == Elements(d.stages[i - 1]);
      FoldedOtherStages(c, d, h[i - 1], Elements(c.stages[i - 1]), h[i]);
    }
  }

  /**
   * Two successful runs from the same beginning end with the same outputs, skips and input, whatever
   * order the workers finished in and whatever order the maps listed the nodes of a stage in.
   */
  lemma RunsAgree(c: Config, d: Config, b: Boundary, r: seq<State>, q: seq<State>)
    requires WellFormed(c) && WellFormed(d) && d == c.(stages := d.stages)
    requires OrderBlind(c.nodes) && SiblingsAgree(c, b)
    requires IsRun(c, b, r) && r[|r| - 1].phase.Finished?
    requires IsRun(d, b, q) && q[|q| - 1].phase.Finished?
    ensures SameBoundary(r[|r| - 1].now, q[|q| - 1].now)
  {
    hide OrderBlind, SiblingsAgree, FoldedTo, WellFormed;
    RunKeeps(c, b, r, |r| - 1);
    RunKeeps(d, b, q, |q| - 1);
    var g, h := r[|r| - 1].history, q[|q| - 1].history;
    HistoryOtherStages(c, d, h);
    SameAsItself(b);
    HistoriesAgree(c, g, h, |c.stages|);
  }

  lemma SameAsItself(b: Boundary)
    ensures SameBoundary(b, b)
  {}

  /**
   * Whether a run fails does not depend on order either: once some run has finished, a run that stops early
   * was cancelled.
   */
  lemma NoRunFailsIfOneFinishes(c: Config, d: Config, b: Boundary, r: seq<State>, q: seq<State>)
    requires WellFormed(c) && WellFormed(d) && d == c.(stages := d.stages)
    requires OrderBlind(c.nodes) && SiblingsAgree(c, b)
    requires IsRun(c, b, r) && Last(r).phase.Finished?
    requires IsRun(d, b, q) && Last(q).phase.Stopped?
    ensures Last(q).phase.error.Cancelled?
  {
    hide OrderBlind, SiblingsAgree, FoldedTo, WellFormed, Folds, IsRun;
    assert r != [] && q != [] by { RunNotEmpty(c, b, r); RunNotEmpty(d, b, q); }
    RunKeeps(c, b, r, |r| - 1);
    RunKeeps(d, b, q, |q| - 1);
    var g, h, error := Last(r).history, Last(q).history, Last(q).phase.error;
    HistoryOtherStages(c, d, h);
    SameAsItself(b);
    var i := |h| - 1;
    HistoriesAgree(c, g, h, i);
    if !error.Cancelled? {
      var k := error.failure.key;
      StageOtherOrder(c, d, i, k);
      NodeFolds(c, g, i, k);
      FoldsRegistered(c, g[i], {k});
      OutcomeSame(c, g[i], h[i], k);
      FoldsOtherStages(c, d, h[i], k);
    }
  }

  lemma RunNotEmpty(c: Config, b: Boundary, run: seq<State>)
    requires IsRun(c, b, run)
    ensures run != []
  {}

  lemma StageOtherOrder(c: Config, d: Config, i: nat, k: TypeKey)
    requires WellFormed(c) && WellFormed(d) && d == c.(stages := d.stages)
    requires i < |d.stages| && k in d.stages[i]
    ensures i < |c.stages| && k in c.stages[i]
  {
    CanonicalUnique(Dependencies(c.nodes), c.stages, d.stages);
    MultisetMembers(c.stages[i], d.stages[i]);
  }

  lemma FoldsOtherStages(c: Config, d: Config, b: Boundary, k: TypeKey)
    requires d == c.(stages := d.stages)
    ensures Folds(c, b, k) <==> Folds(d, b, k)
  {}

  lemma FoldsRegistered(c: Config, b: Boundary, done: set<TypeKey>)
    requires forall k :: k in done ==> Folds(c, b, k)
    ensures done <= c.nodes.Keys
  {}
}
