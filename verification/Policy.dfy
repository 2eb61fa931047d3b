/** Compiled policies: which severity rule decides a check, and which acknowledgement covers a finding. */
module Policy {
  import opened Wrappers
  import opened Sequences
  import opened Text
  import opened Pattern
  import opened SeverityPath

  datatype Severity = Blocking | Warning | Ignore | Unknown(text: string)

  /** Instants are integers. */
  datatype SeverityValue = SeverityValue(severity: Severity, reason: string, blockingAfter: Option<int>)

  datatype SeverityRule = SeverityRule(
    path: Path, value: SeverityValue, specificity: int, wildcardCount: int, isOverlay: bool, isOverride: bool)

  datatype Acknowledgement = Acknowledgement(checks: seq<string>, reason: string, expires: Option<int>, approvedBy: string)

  type AckTable = map<string, Acknowledgement>

  datatype CompiledPolicy = CompiledPolicy(
    rules: seq<SeverityRule>, expectedFailures: AckTable, expectedWarnings: AckTable, workflowMode: Option<string>)

  datatype Context = Context(
    sourcePath: string, ecosystem: string, depth: nat, dev: bool, checkCode: string, categories: seq<string>, time: int)

  datatype Note =
    | NoNote
    | BumpedAfter(from: Severity, date: int)
    | WillBlockAfter(date: int)
    | Reason(text: string)
    | AcknowledgedBy(ack: Acknowledgement)
    | ExpiredBy(ack: Acknowledgement)

  datatype SeverityResult = SeverityResult(severity: Severity, note: Note, matchedRule: Option<SeverityRule>)

  datatype PolicyError = NoCategory(checkCode: string)

  // ---- Severity rules

  predicate Matches(r: SeverityRule, ctx: Context) {
    && (r.path.sourcePath.Some? ==> MatchesPattern(r.path.sourcePath.value, ctx.sourcePath))
    && (r.path.ecosystem.Some? ==> MatchesPattern(r.path.ecosystem.value, ctx.ecosystem))
    && (r.path.depthRange.Some? ==> r.path.depthRange.value.Contains(ctx.depth))
    && (r.path.env.Some? ==> r.path.env.value == ctx.dev)
    && (if r.path.target.isCategory
        then exists c :: c in ctx.categories && MatchesPattern(r.path.target.name, c)
        else MatchesPattern(r.path.target.name, ctx.checkCode))
  }

  function Resolve(v: SeverityValue, time: int): (Severity, Note) {
    match v.blockingAfter
    case Some(date) => if time > date then (Blocking, BumpedAfter(v.severity, date)) else (v.severity, WillBlockAfter(date))
    case None => (v.severity, if v.reason != "" then Reason(v.reason) else NoNote)
  }

  function Rank(s: Severity): int {
    match s
    case Blocking => 2
    case Warning => 1
    case Ignore => 0
    case Unknown(_) => -1
  }

  /** What rules are compared by: specificity first, then the rank of the severity at that time. */
  datatype Weight = Weight(specificity: int, rank: int)

  function WeightOf(r: SeverityRule, time: int): Weight {
    Weight(r.specificity, Rank(Resolve(r.value, time).0))
  }

  predicate Lighter(a: Weight, b: Weight) {
    a.specificity < b.specificity || (a.specificity == b.specificity && a.rank < b.rank)
  }

  /** The deciding rule: no matching rule is heavier, and every earlier matching rule is lighter. */
  ghost predicate Decides(rules: seq<SeverityRule>, ctx: Context, i: nat) {
    && i < |rules| && Matches(rules[i], ctx)
    && (forall j :: 0 <= j < |rules| && Matches(rules[j], ctx) ==> !Lighter(WeightOf(rules[i], ctx.time), WeightOf(rules[j], ctx.time)))
    && (forall j :: 0 <= j < i && Matches(rules[j], ctx) ==> Lighter(WeightOf(rules[j], ctx.time), WeightOf(rules[i], ctx.time)))
  }

  ghost predicate NoneMatches(rules: seq<SeverityRule>, ctx: Context) {
    forall r :: r in rules ==> !Matches(r, ctx)
  }

  lemma DeciderUnique(rules: seq<SeverityRule>, ctx: Context, i: nat, j: nat)
    requires Decides(rules, ctx, i) && Decides(rules, ctx, j)
    ensures i == j
  {}

  lemma {:induction false} DeciderExists(rules: seq<SeverityRule>, ctx: Context)
    requires !NoneMatches(rules, ctx)
    ensures exists i: nat :: Decides(rules, ctx, i)
  {
    var n := |rules| - 1;
    var init := rules[..n];
    assert rules == init + [rules[n]];
    if NoneMatches(init, ctx) {
      assert forall j :: 0 <= j < n ==> rules[j] in init;
      assert Decides(rules, ctx, n);
    } else {
      DeciderExists(init, ctx);
      var i: nat :| Decides(init, ctx, i);
      assert forall j :: 0 <= j < n ==> init[j] == rules[j];
      if Matches(rules[n], ctx) && Lighter(WeightOf(rules[i], ctx.time), WeightOf(rules[n], ctx.time)) {
        assert Decides(rules, ctx, n);
      } else {
        assert Decides(rules, ctx, i);
      }
    }
  }

  ghost function Decider(rules: seq<SeverityRule>, ctx: Context): (i: nat)
    requires !NoneMatches(rules, ctx)
    ensures Decides(rules, ctx, i)
  {
    DeciderExists(rules, ctx);
    var i: nat :| Decides(rules, ctx, i);
    i
  }

  function ResultOf(r: SeverityRule, time: int): SeverityResult {
    SeverityResult(Resolve(r.value, time).0, Resolve(r.value, time).1, Some(r))
  }

  ghost function SeverityOf(rules: seq<SeverityRule>, ctx: Context): Result<SeverityResult, PolicyError> {
    if !NoneMatches(rules, ctx) then Ok(ResultOf(rules[Decider(rules, ctx)], ctx.time))
    else if ctx.categories == [] then Err(NoCategory(ctx.checkCode))
    else Ok(SeverityResult(Blocking, NoNote, None))
  }

  method GetSeverity(rules: seq<SeverityRule>, ctx: Context) returns (r: Result<SeverityResult, PolicyError>)
    ensures r == SeverityOf(rules, ctx)
  {
    var best: Option<nat> := None;
    for i := 0 to |rules|
      invariant best.None? ==> forall j :: 0 <= j < i ==> !Matches(rules[j], ctx)
      invariant best.Some? ==> best.value < i && Decides(rules[..i], ctx, best.value)
    {
      assert forall j :: 0 <= j < i ==> rules[..i][j] == rules[j] == rules[..i + 1][j];
      if Matches(rules[i], ctx) {
        if best.None? || Lighter(WeightOf(rules[best.value], ctx.time), WeightOf(rules[i], ctx.time)) {
          best := Some(i);
        }
      }
    }
    assert rules[..|rules|] == rules;
    if best.Some? {
      assert rules[best.value] in rules;
      DeciderUnique(rules, ctx, best.value, Decider(rules, ctx));
      return Ok(ResultOf(rules[best.value], ctx.time));
    }
    if |ctx.categories| == 0 {
      return Err(NoCategory(ctx.checkCode));
    }
    return Ok(SeverityResult(Blocking, NoNote, None));
  }

  // ---- The decision depends only on which rules there are

  /** The weight of the deciding rule. */
  ghost function DecidingWeight(rules: seq<SeverityRule>, ctx: Context): Option<Weight> {
    if NoneMatches(rules, ctx) then None else Some(WeightOf(rules[Decider(rules, ctx)], ctx.time))
  }

  function Heavier(a: Option<Weight>, b: Option<Weight>): Option<Weight> {
    if a.None? then b else if b.None? then a else if Lighter(a.value, b.value) then b else a
  }

  /** Two rules that no context can tell apart. */
  predicate SameEffect(a: SeverityRule, b: SeverityRule) {
    a.path == b.path && a.value == b.value && a.specificity == b.specificity
  }

  ghost predicate Represented(a: seq<SeverityRule>, b: seq<SeverityRule>) {
    forall r :: r in a ==> RepresentedIn(r, b)
  }

  ghost predicate RepresentedIn(r: SeverityRule, b: seq<SeverityRule>) {
    exists s :: s in b && SameEffect(r, s)
  }

  lemma WeightAtLeast(rules: seq<SeverityRule>, ctx: Context, r: SeverityRule)
    requires r in rules && Matches(r, ctx)
    ensures DecidingWeight(rules, ctx).Some? && !Lighter(DecidingWeight(rules, ctx).value, WeightOf(r, ctx.time))
  {
    var j :| 0 <= j < |rules| && rules[j] == r;
    var i := Decider(rules, ctx);
  }

  lemma RepresentedNotHeavier(a: seq<SeverityRule>, b: seq<SeverityRule>, ctx: Context)
    requires Represented(a, b)
    ensures DecidingWeight(a, ctx).Some? ==>
      DecidingWeight(b, ctx).Some? && !Lighter(DecidingWeight(b, ctx).value, DecidingWeight(a, ctx).value)
  {
    if !NoneMatches(a, ctx) {
      var r := a[Decider(a, ctx)];
      assert r in a && RepresentedIn(r, b);
      var s :| s in b && SameEffect(r, s);
      WeightAtLeast(b, ctx, s);
    }
  }

  lemma SameRulesSameWeight(a: seq<SeverityRule>, b: seq<SeverityRule>, ctx: Context)
    requires Represented(a, b) && Represented(b, a)
    ensures DecidingWeight(a, ctx) == DecidingWeight(b, ctx)
  {
    RepresentedNotHeavier(a, b, ctx);
    RepresentedNotHeavier(b, a, ctx);
  }

  lemma RepresentedItself(a: seq<SeverityRule>, b: seq<SeverityRule>)
    requires forall r :: r in a ==> r in b
    ensures Represented(a, b)
  {
    forall r | r in a ensures RepresentedIn(r, b) { assert SameEffect(r, r); }
  }

  /** The severity, unless it is not one of the three the loader accepts. */
  ghost predicate SameVerdict(a: Result<SeverityResult, PolicyError>, b: Result<SeverityResult, PolicyError>) {
    match (a, b)
    case (Err(e), Err(f)) => e == f
    case (Ok(x), Ok(y)) => Rank(x.severity) == Rank(y.severity) && (Rank(x.severity) >= 0 ==> x.severity == y.severity)
    case _ => false
  }

  lemma SameWeightSameVerdict(a: seq<SeverityRule>, b: seq<SeverityRule>, ctx: Context)
    requires DecidingWeight(a, ctx) == DecidingWeight(b, ctx)
    ensures SameVerdict(SeverityOf(a, ctx), SeverityOf(b, ctx))
  {}

  /** The order of the rules does not matter. */
  lemma SeverityIgnoresRuleOrder(a: seq<SeverityRule>, b: seq<SeverityRule>, ctx: Context)
    requires multiset(a) == multiset(b)
    ensures DecidingWeight(a, ctx) == DecidingWeight(b, ctx)
    ensures SameVerdict(SeverityOf(a, ctx), SeverityOf(b, ctx))
  {
    MultisetMembers(a, b);
    RepresentedItself(a, b);
    RepresentedItself(b, a);
    SameRulesSameWeight(a, b, ctx);
    SameWeightSameVerdict(a, b, ctx);
  }

  lemma JoinedNotHeavier(a: seq<SeverityRule>, b: seq<SeverityRule>, all: seq<SeverityRule>, ctx: Context)
    requires Represented(all, a + b) && !NoneMatches(all, ctx)
    ensures var h := Heavier(DecidingWeight(a, ctx), DecidingWeight(b, ctx));
      h.Some? && !Lighter(h.value, WeightOf(all[Decider(all, ctx)], ctx.time))
  {
    var r := all[Decider(all, ctx)];
    assert r in all && RepresentedIn(r, a + b);
    var s :| s in a + b && SameEffect(r, s);
    assert Matches(s, ctx) && WeightOf(s, ctx.time) == WeightOf(r, ctx.time);
    hide Matches, WeightOf, DecidingWeight;
    if s in a { WeightAtLeast(a, ctx, s); } else { WeightAtLeast(b, ctx, s); }
  }

  /** Joined rule lists decide by the heavier of the two decisions. */
  lemma JoinedWeight(a: seq<SeverityRule>, b: seq<SeverityRule>, all: seq<SeverityRule>, ctx: Context)
    requires Represented(a, all) && Represented(b, all) && Represented(all, a + b)
    ensures DecidingWeight(all, ctx) == Heavier(DecidingWeight(a, ctx), DecidingWeight(b, ctx))
  {
    hide Represented, NoneMatches, WeightOf;
    RepresentedNotHeavier(a, all, ctx);
    RepresentedNotHeavier(b, all, ctx);
    if !NoneMatches(all, ctx) {
      JoinedNotHeavier(a, b, all, ctx);
    }
  }

  // ---- What the severity is, said of the rules as they are written

  /** A matching rule that no matching rule exceeds in specificity. */
  ghost predicate IsTop(rules: seq<SeverityRule>, ctx: Context, r: SeverityRule) {
    r in rules && Matches(r, ctx) && forall q :: q in rules && Matches(q, ctx) ==> q.specificity <= r.specificity
  }

  /** The deadline lies before the evaluation; on the instant itself it has not passed. */
  predicate IsPastDeadline(v: SeverityValue, time: int) {
    v.blockingAfter.Some? && v.blockingAfter.value < time
  }

  ghost predicate SomeTopBlocks(rules: seq<SeverityRule>, ctx: Context) {
    exists r :: IsTop(rules, ctx, r) && (r.value.severity == Blocking || IsPastDeadline(r.value, ctx.time))
  }

  ghost predicate SomeTopIs(rules: seq<SeverityRule>, ctx: Context, severity: Severity) {
    exists r :: IsTop(rules, ctx, r) && r.value.severity == severity
  }

  /**
   * Among the most specific matching rules, one past its deadline or written as blocking makes the severity blocking;
   * failing that, one written as a warning makes it a warning; failing that, one written to be ignored, ignored.
   */
  lemma SeverityMeans(rules: seq<SeverityRule>, ctx: Context)
    ensures NoneMatches(rules, ctx) ==>
      SeverityOf(rules, ctx) ==
        if ctx.categories == [] then Err(NoCategory(ctx.checkCode)) else Ok(SeverityResult(Blocking, NoNote, None))
    ensures !NoneMatches(rules, ctx) ==> SeverityOf(rules, ctx).Ok? && var severity := SeverityOf(rules, ctx).value.severity;
      && (severity == Blocking <==> SomeTopBlocks(rules, ctx))
      && (severity == Warning <==> !SomeTopBlocks(rules, ctx) && SomeTopIs(rules, ctx, Warning))
      && (severity == Ignore <==>
            !SomeTopBlocks(rules, ctx) && !SomeTopIs(rules, ctx, Warning) && SomeTopIs(rules, ctx, Ignore))
  {
    hide Matches;
    if !NoneMatches(rules, ctx) {
      var i := Decider(rules, ctx);
      var r := rules[i];
      assert r in rules;
      forall q | q in rules && Matches(q, ctx) ensures !Lighter(WeightOf(r, ctx.time), WeightOf(q, ctx.time)) {
        var j :| 0 <= j < |rules| && rules[j] == q;
      }
      assert IsTop(rules, ctx, r);
    }
  }

  /** The note says which deadline has passed or is still to come; a rule without one gives its reason. */
  lemma NoteMeans(rules: seq<SeverityRule>, ctx: Context)
    requires !NoneMatches(rules, ctx)
    ensures SeverityOf(rules, ctx).Ok? && SeverityOf(rules, ctx).value.matchedRule.Some?
    ensures var result := SeverityOf(rules, ctx).value;
      var r := result.matchedRule.value;
      && IsTop(rules, ctx, r)
      && result.note ==
           if r.value.blockingAfter.Some? then
             if IsPastDeadline(r.value, ctx.time) then BumpedAfter(r.value.severity, r.value.blockingAfter.value)
             else WillBlockAfter(r.value.blockingAfter.value)
           else if r.value.reason == "" then NoNote
           else Reason(r.value.reason)
  {
    hide Matches;
    var r := rules[Decider(rules, ctx)];
    assert r in rules;
    forall q | q in rules && Matches(q, ctx) ensures q.specificity <= r.specificity {
      var j :| 0 <= j < |rules| && rules[j] == q;
    }
  }

  /** On the date itself a rule still has its written severity; an instant later it blocks. */
  lemma DeadlineIsExclusive(r: SeverityRule, ctx: Context)
    requires Matches(r, ctx) && r.value.blockingAfter == Some(ctx.time)
    ensures SeverityOf([r], ctx).Ok? && SeverityOf([r], ctx).value.severity == r.value.severity
    ensures var later := ctx.(time := ctx.time + 1);
      SeverityOf([r], later).Ok? && SeverityOf([r], later).value.severity == Blocking
  {
    var later := ctx.(time := ctx.time + 1);
    assert r in [r] && Matches(r, later);
    assert !NoneMatches([r], ctx) && !NoneMatches([r], later);
    hide Matches;
    assert [r][Decider([r], ctx)] == r && [r][Decider([r], later)] == r;
  }

  // ---- Acknowledgements

  function StripQuery(s: string): string {
    var i := IndexOf(s, '?');
    if 0 < i < |s| then s[..i] else s
  }

  function EntitySpecificity(pattern: string): int {
    if pattern == "root" then 0
    else (if '?' in pattern then 2 else 0) + (if '*' in pattern then 0 else 1)
  }

  predicate ChecksContain(checks: seq<string>, checkCode: string) {
    exists c :: c in checks && MatchesPattern(c, checkCode)
  }

  predicate EntityMatches(pattern: string, entityKey: string) {
    MatchesPattern(pattern, if '?' in pattern then entityKey else StripQuery(entityKey))
  }

  predicate Covers(table: AckTable, pattern: string, entityKey: string, checkCode: string) {
    && pattern in table && pattern != "root"
    && EntityMatches(pattern, entityKey)
    && ChecksContain(table[pattern].checks, checkCode)
  }

  predicate MoreSpecific(a: string, b: string) {
    EntitySpecificity(a) > EntitySpecificity(b) || (EntitySpecificity(a) == EntitySpecificity(b) && |a| > |b|)
  }

  /** A covering key that no other covering key beats. */
  ghost predicate BestKey(table: AckTable, entityKey: string, checkCode: string, pattern: string) {
    && Covers(table, pattern, entityKey, checkCode)
    && forall q :: Covers(table, q, entityKey, checkCode) ==> !MoreSpecific(q, pattern)
  }

  function RootAck(table: AckTable, checkCode: string, depth: nat): Option<Acknowledgement> {
    if depth == 0 && "root" in table && ChecksContain(table["root"].checks, checkCode) then Some(table["root"]) else None
  }

  /** What the lookup may return: ties between best keys fall to the order in which the map is iterated. */
  ghost predicate IsAck(table: AckTable, entityKey: string, checkCode: string, depth: nat, ack: Option<Acknowledgement>) {
    if exists p :: Covers(table, p, entityKey, checkCode)
    then exists p :: BestKey(table, entityKey, checkCode, p) && ack == Some(table[p])
    else ack == RootAck(table, checkCode, depth)
  }

  /**
   * Of the keys that cover a finding, one for a single version wins over one for all versions; then one without a star
   * over one with; then a longer one over a shorter.
   */
  lemma BestKeyMeans(table: AckTable, entityKey: string, checkCode: string, p: string, q: string)
    requires BestKey(table, entityKey, checkCode, p) && Covers(table, q, entityKey, checkCode)
    ensures '?' in q ==> '?' in p
    ensures ('?' in p <==> '?' in q) && '*' !in q ==> '*' !in p
    ensures ('?' in p <==> '?' in q) && ('*' in p <==> '*' in q) ==> |p| >= |q|
  {
    hide EntityMatches, ChecksContain;
  }

  // ---- The lookup, for an order in which the map is iterated

  ghost predicate Iterates(order: seq<string>, table: AckTable) {
    PairwiseDistinct(order) && forall k :: k in order <==> k in table
  }

  /** The best pattern once the listed keys have been looked at. */
  function BestAfter(table: AckTable, entityKey: string, checkCode: string, order: seq<string>): (best: Option<string>)
    ensures best.Some? ==> best.value in order && Covers(table, best.value, entityKey, checkCode)
    ensures forall q :: q in order && Covers(table, q, entityKey, checkCode) ==> best.Some? && !MoreSpecific(q, best.value)
  {
    if order == [] then None else
      var before, pattern := BestAfter(table, entityKey, checkCode, order[..|order| - 1]), order[|order| - 1];
      if Covers(table, pattern, entityKey, checkCode) && (before.None? || MoreSpecific(pattern, before.value)) then Some(pattern)
      else before
  }

  function AckInOrder(table: AckTable, entityKey: string, checkCode: string, depth: nat, order: seq<string>): Option<Acknowledgement> {
    match BestAfter(table, entityKey, checkCode, order)
    case Some(p) => Some(table[p])
    case None => RootAck(table, checkCode, depth)
  }

  method MatchAck(table: AckTable, entityKey: string, checkCode: string, depth: nat) returns (ack: Option<Acknowledgement>)
    ensures IsAck(table, entityKey, checkCode, depth, ack)
    ensures exists order :: Iterates(order, table) && ack == AckInOrder(table, entityKey, checkCode, depth, order)
  {
    hide Covers, MoreSpecific, EntityMatches, IsAck;
    var best: Option<string> := None;
    var todo := table.Keys;
    ghost var order: seq<string> := [];
    while todo != {}
      invariant todo <= table.Keys && PairwiseDistinct(order)
      invariant forall k :: k in order <==> k in table && k !in todo
      invariant best == BestAfter(table, entityKey, checkCode, order)
    {
      var pattern :| pattern in todo;
      todo := todo - {pattern};
      assert (order + [pattern])[..|order|] == order;
      order := order + [pattern];
      if pattern != "root" {
        var matchEntity := entityKey;
        if '?' !in pattern {
          matchEntity := StripQuery(matchEntity);
        }
        var covers := MatchesPattern(pattern, matchEntity) && ChecksContain(table[pattern].checks, checkCode);
        assert covers == Covers(table, pattern, entityKey, checkCode) by { CoversMeans(table, pattern, entityKey, checkCode); }
        if covers {
          if best.None? || MoreSpecific(pattern, best.value) {
            best := Some(pattern);
          }
        }
      } else {
        CoversMeans(table, pattern, entityKey, checkCode);
      }
    }
    OrderGivesAck(table, entityKey, checkCode, depth, order);
    if best.Some? {
      return Some(table[best.value]);
    }
    if depth == 0 && "root" in table && ChecksContain(table["root"].checks, checkCode) {
      return Some(table["root"]);
    }
    return None;
  }

  lemma CoversMeans(table: AckTable, pattern: string, entityKey: string, checkCode: string)
    requires pattern in table
    ensures Covers(table, pattern, entityKey, checkCode) <==>
      && pattern != "root"
      && MatchesPattern(pattern, if '?' in pattern then entityKey else StripQuery(entityKey))
      && ChecksContain(table[pattern].checks, checkCode)
  {}

  /** Every order of the map gives a possible answer. */
  lemma OrderGivesAck(table: AckTable, entityKey: string, checkCode: string, depth: nat, order: seq<string>)
    requires Iterates(order, table)
    ensures IsAck(table, entityKey, checkCode, depth, AckInOrder(table, entityKey, checkCode, depth, order))
  {
    hide MoreSpecific, EntityMatches;
    var best := BestAfter(table, entityKey, checkCode, order);
    if best.Some? {
      assert BestKey(table, entityKey, checkCode, best.value);
    }
  }

  /** A best key that is looked at first is never replaced. */
  lemma {:induction false} FirstBestStays(table: AckTable, entityKey: string, checkCode: string, order: seq<string>)
    requires order != [] && BestKey(table, entityKey, checkCode, order[0])
    ensures BestAfter(table, entityKey, checkCode, order) == Some(order[0])
  {
    hide Covers, MoreSpecific;
    var n := |order| - 1;
    if n == 0 {
      assert order[..0] == [];
    } else {
      FirstBestStays(table, entityKey, checkCode, order[..n]);
    }
  }

  /** Each best key is the answer in some order of the map: one that starts with it. */
  lemma BestKeyReturned(table: AckTable, entityKey: string, checkCode: string, depth: nat, p: string) returns (order: seq<string>)
    requires BestKey(table, entityKey, checkCode, p)
    ensures Iterates(order, table)
    ensures AckInOrder(table, entityKey, checkCode, depth, order) == Some(table[p])
  {
    var rest := Listed(table.Keys - {p});
    order := [p] + rest;
    ListsSet(rest, table.Keys - {p});
    FirstBestStays(table, entityKey, checkCode, order);
  }

  /** The possible answers are those that some order of the map gives. */
  lemma AckPossibleIff(table: AckTable, entityKey: string, checkCode: string, depth: nat, ack: Option<Acknowledgement>)
    ensures IsAck(table, entityKey, checkCode, depth, ack) <==>
      exists order :: Iterates(order, table) && ack == AckInOrder(table, entityKey, checkCode, depth, order)
  {
    hide EntityMatches, ChecksContain, MoreSpecific, RootAck;
    if IsAck(table, entityKey, checkCode, depth, ack) {
      if p :| Covers(table, p, entityKey, checkCode) {
        var b :| BestKey(table, entityKey, checkCode, b) && ack == Some(table[b]);
        var order := BestKeyReturned(table, entityKey, checkCode, depth, b);
      } else {
        var order := Listed(table.Keys);
        ListsSet(order, table.Keys);
        assert Iterates(order, table) && ack == AckInOrder(table, entityKey, checkCode, depth, order);
      }
    }
    if order :| Iterates(order, table) && ack == AckInOrder(table, entityKey, checkCode, depth, order) {
      OrderGivesAck(table, entityKey, checkCode, depth, order);
    }
  }

  lemma AckExists(table: AckTable, entityKey: string, checkCode: string, depth: nat) returns (ack: Option<Acknowledgement>)
    ensures IsAck(table, entityKey, checkCode, depth, ack)
  {
    var order := Listed(table.Keys);
    ListsSet(order, table.Keys);
    ack := AckInOrder(table, entityKey, checkCode, depth, order);
    OrderGivesAck(table, entityKey, checkCode, depth, order);
  }

  /** Every order of the map gives the same answer exactly when all best keys carry the same acknowledgement. */
  lemma AckDeterminedIff(table: AckTable, entityKey: string, checkCode: string, depth: nat)
    ensures (forall a, b :: Iterates(a, table) && Iterates(b, table) ==>
               AckInOrder(table, entityKey, checkCode, depth, a) == AckInOrder(table, entityKey, checkCode, depth, b))
      <==> (forall p, q :: BestKey(table, entityKey, checkCode, p) && BestKey(table, entityKey, checkCode, q) ==> table[p] == table[q])
  {
    hide Iterates, AckInOrder, RootAck, EntityMatches, ChecksContain, MoreSpecific;
    if p, q :| BestKey(table, entityKey, checkCode, p) && BestKey(table, entityKey, checkCode, q) && table[p] != table[q] {
      var a := BestKeyReturned(table, entityKey, checkCode, depth, p);
      var b := BestKeyReturned(table, entityKey, checkCode, depth, q);
    } else {
      forall a, b | Iterates(a, table) && Iterates(b, table)
        ensures AckInOrder(table, entityKey, checkCode, depth, a) == AckInOrder(table, entityKey, checkCode, depth, b)
      {
        OrderGivesAck(table, entityKey, checkCode, depth, a);
        OrderGivesAck(table, entityKey, checkCode, depth, b);
      }
    }
  }

  // ---- A tie

  lemma {:induction false} FilledAfter(prefix: string, rest: string, fills: seq<string>)
    requires '*' !in prefix && |fills| == Stars(rest)
    ensures Stars(prefix + rest) == Stars(rest) && Filled(prefix + rest, fills) == prefix + Filled(rest, fills)
  {
    if prefix == "" {
      assert prefix + rest == rest;
    } else {
      var c, tail, filled := prefix[0], prefix[1..], Filled(rest, fills);
      assert c in prefix && (prefix + rest)[0] == c && (prefix + rest)[1..] == tail + rest;
      FilledAfter(tail, rest, fills);
      assert Filled(prefix + rest, fills) == [c] + (tail + filled);
      assert [c] + (tail + filled) == prefix + filled;
    }
  }

  /** Two keys with the same text before, and one star each on either side of it, both match the text filled in. */
  lemma StarMatches(prefix: string)
    requires '*' !in prefix
    ensures MatchesPattern(prefix + "a*", prefix + "ab") && MatchesPattern(prefix + "*b", prefix + "ab")
  {
    assert "a*"[1..] == "*" && "*b"[1..] == "b" && "*"[1..] == "" && "b"[1..] == "";
    assert ["b"][1..] == [] && ["a"][1..] == [];
    assert Stars("a*") == 1 && Filled("a*", ["b"]) == "ab";
    assert Stars("*b") == 1 && Filled("*b", ["a"]) == "ab";
    FilledAfter(prefix, "a*", ["b"]);
    FilledAfter(prefix, "*b", ["a"]);
    assert IsFilling(prefix + "a*", ["b"], prefix + "ab");
    assert IsFilling(prefix + "*b", ["a"], prefix + "ab");
    MatchesIffFilled(prefix + "a*", prefix + "ab");
    MatchesIffFilled(prefix + "*b", prefix + "ab");
  }

  /** Two overlapping keys of equal length for one package: whichever the map yields first gives the acknowledgement. */
  lemma TieFallsToMapOrder(prefix: string, checkCode: string, depth: nat, a: Acknowledgement, b: Acknowledgement)
    requires '*' !in prefix && '?' !in prefix && checkCode in a.checks && checkCode in b.checks
    ensures var x, y := prefix + "a*", prefix + "*b";
      var table := map[x := a, y := b];
      && Iterates([x, y], table) && AckInOrder(table, prefix + "ab", checkCode, depth, [x, y]) == Some(a)
      && Iterates([y, x], table) && AckInOrder(table, prefix + "ab", checkCode, depth, [y, x]) == Some(b)
  {
    var x, y, entity := prefix + "a*", prefix + "*b", prefix + "ab";
    var table := map[x := a, y := b];
    StarMatches(prefix);
    MatchesItself(checkCode);
    assert x[|prefix|] == 'a' && y[|prefix|] == '*' && x[|prefix| + 1] == '*';
    IndexOfIs(entity, '?', |entity|);
    assert '*' !in "root";
    assert Covers(table, x, entity, checkCode) && Covers(table, y, entity, checkCode);
    assert !MoreSpecific(x, y) && !MoreSpecific(y, x);
    FirstBestStays(table, entity, checkCode, [x, y]);
    FirstBestStays(table, entity, checkCode, [y, x]);
  }
}
