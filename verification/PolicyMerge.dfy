/** Overlaying a repository's policy on a base policy. */
module PolicyMerge {
  import opened Wrappers
  import opened Sequences
  import opened Ordering
  import opened Policy

  /** Specific rules first, then fewer wildcards, then the overlay's. */
  predicate MergeLe(a: SeverityRule, b: SeverityRule) {
    if a.specificity != b.specificity then a.specificity > b.specificity
    else if a.wildcardCount != b.wildcardCount then a.wildcardCount < b.wildcardCount
    else a.isOverlay || !b.isOverlay
  }

  lemma MergeLeIsTotalPreorder()
    ensures TotalPreorder(MergeLe)
  {}

  function Tagged(rules: seq<SeverityRule>, isOverlay: bool): seq<SeverityRule> {
    seq(|rules|, i requires 0 <= i < |rules| => rules[i].(isOverlay := isOverlay))
  }

  function MergedRules(base: seq<SeverityRule>, overlay: seq<SeverityRule>): seq<SeverityRule> {
    Sort(Tagged(base, false) + Tagged(overlay, true), MergeLe)
  }

  method TagRules(rules: seq<SeverityRule>, isOverlay: bool) returns (tagged: seq<SeverityRule>)
    ensures tagged == Tagged(rules, isOverlay)
  {
    tagged := [];
    for i := 0 to |rules|
      invariant |tagged| == i && forall j :: 0 <= j < i ==> tagged[j] == rules[j].(isOverlay := isOverlay)
    {
      tagged := tagged + [rules[i].(isOverlay := isOverlay)];
    }
  }

  method OverlayTable(base: AckTable, overlay: AckTable) returns (table: AckTable)
    ensures table == base + overlay
  {
    table := base;
    var todo := overlay.Keys;
    while todo != {}
      invariant todo <= overlay.Keys
      invariant table == base + map k | k in overlay && k !in todo :: overlay[k]
    {
      var k :| k in todo;
      table := table[k := overlay[k]];
      todo := todo - {k};
    }
    assert (map k | k in overlay && k !in todo :: overlay[k]) == overlay;
  }

  method Merge(base: Option<CompiledPolicy>, overlay: Option<CompiledPolicy>) returns (merged: Option<CompiledPolicy>)
    ensures overlay.None? ==> merged == base
    ensures base.None? && overlay.Some? ==> merged == overlay
    ensures base.Some? && overlay.Some? ==> merged == Some(CompiledPolicy(
      MergedRules(base.value.rules, overlay.value.rules),
      base.value.expectedFailures + overlay.value.expectedFailures,
      base.value.expectedWarnings + overlay.value.expectedWarnings,
      if overlay.value.workflowMode.Some? then overlay.value.workflowMode else base.value.workflowMode))
  {
    if overlay.None? {
      return base;
    }
    if base.None? {
      return overlay;
    }
    var baseRules := TagRules(base.value.rules, false);
    var overlayRules := TagRules(overlay.value.rules, true);
    var allRules := Sort(baseRules + overlayRules, MergeLe);
    var expectedFailures := OverlayTable(base.value.expectedFailures, overlay.value.expectedFailures);
    var expectedWarnings := OverlayTable(base.value.expectedWarnings, overlay.value.expectedWarnings);
    var mode := base.value.workflowMode;
    if overlay.value.workflowMode.Some? {
      mode := overlay.value.workflowMode;
    }
    merged := Some(CompiledPolicy(allRules, expectedFailures, expectedWarnings, mode));
  }

  lemma TaggedRepresented(rules: seq<SeverityRule>, isOverlay: bool)
    ensures Represented(rules, Tagged(rules, isOverlay)) && Represented(Tagged(rules, isOverlay), rules)
  {
    var tagged := Tagged(rules, isOverlay);
    forall r | r in rules ensures RepresentedIn(r, tagged) {
      var i :| 0 <= i < |rules| && rules[i] == r;
      assert tagged[i] in tagged && SameEffect(r, tagged[i]);
    }
    forall r | r in tagged ensures RepresentedIn(r, rules) {
      var i :| 0 <= i < |tagged| && tagged[i] == r;
      assert rules[i] in rules && SameEffect(r, rules[i]);
    }
  }

  lemma MergedContents(base: seq<SeverityRule>, overlay: seq<SeverityRule>)
    ensures SortedBy(MergedRules(base, overlay), MergeLe)
    ensures forall r :: r in MergedRules(base, overlay) <==> r in Tagged(base, false) || r in Tagged(overlay, true)
  {
    var all := Tagged(base, false) + Tagged(overlay, true);
    MergeLeIsTotalPreorder();
    SortSorts(all, MergeLe);
    SortContents(all, MergeLe);
    MultisetMembers(Sort(all, MergeLe), all);
  }

  /** The merged rules come by falling specificity, then rising number of wildcards, then the overlay's first. */
  lemma MergedOrder(base: seq<SeverityRule>, overlay: seq<SeverityRule>, i: nat, j: nat)
    requires i < j < |MergedRules(base, overlay)|
    ensures var a, b := MergedRules(base, overlay)[i], MergedRules(base, overlay)[j];
      && a.specificity >= b.specificity
      && (a.specificity == b.specificity ==> a.wildcardCount <= b.wildcardCount)
      && (a.specificity == b.specificity && a.wildcardCount == b.wildcardCount && b.isOverlay ==> a.isOverlay)
  {
    MergedContents(base, overlay);
    hide MergedRules;
  }

  /** A merged policy decides by the heavier of the two policies' own decisions. */
  lemma MergedWeight(base: seq<SeverityRule>, overlay: seq<SeverityRule>, ctx: Context)
    ensures DecidingWeight(MergedRules(base, overlay), ctx) ==
      Heavier(DecidingWeight(base, ctx), DecidingWeight(overlay, ctx))
  {
    hide MergedRules, Tagged;
    var b, o, all := Tagged(base, false), Tagged(overlay, true), MergedRules(base, overlay);
    MergedContents(base, overlay);
    TaggedRepresented(base, false);
    TaggedRepresented(overlay, true);
    SameRulesSameWeight(base, b, ctx);
    SameRulesSameWeight(overlay, o, ctx);
    RepresentedItself(b, all);
    RepresentedItself(o, all);
    RepresentedItself(all, b + o);
    JoinedWeight(b, o, all, ctx);
  }

  /** The rule reported is the base's only if every equally heavy overlay rule has more wildcards. */
  lemma OverlayWinsTies(base: seq<SeverityRule>, overlay: seq<SeverityRule>, ctx: Context, s: SeverityRule)
    requires !NoneMatches(MergedRules(base, overlay), ctx)
    requires s in Tagged(overlay, true) && Matches(s, ctx)
    ensures var all := MergedRules(base, overlay);
      var r := all[Decider(all, ctx)];
      WeightOf(s, ctx.time) == WeightOf(r, ctx.time) && !r.isOverlay ==> r.wildcardCount < s.wildcardCount
  {
    var all := MergedRules(base, overlay);
    MergedContents(base, overlay);
    var i := Decider(all, ctx);
    assert s in all;
    var j :| 0 <= j < |all| && all[j] == s;
    hide MergedRules, Matches;
    assert s.isOverlay;
    if i < j { assert MergeLe(all[i], all[j]); }
  }
}
