/** Compiling a policy file, writing a compiled policy back as one, and what that round trip keeps. */
module PolicyLoader {
  import opened Wrappers
  import opened Sequences
  import opened Ordering
  import opened Text
  import opened SeverityPath
  import opened Policy
  import opened PolicyMerge

  const CURRENT_VERSION := 2

  datatype PolicyFile = PolicyFile(
    version: int, workflowMode: Option<string>, severity: map<string, SeverityValue>,
    expectedFailures: AckTable, expectedWarnings: AckTable)

  datatype CompileError =
    | UnsupportedVersion(version: int)
    | BadPath(path: string, cause: PathError)
    | BadSeverity(path: string)
    | BadAckKey(key: string)
    | NoChecks(key: string)

  // ---- Severity rules

  function RuleOf(text: string, value: SeverityValue): Result<SeverityRule, CompileError> {
    match ParseSeverityPath(text)
    case Err(e) => Err(BadPath(text, e))
    case Ok(p) =>
      if value.severity.Unknown? then Err(BadSeverity(text))
      else Ok(SeverityRule(p, value, ComputeSpecificity(p), CountWildcards(p), false, false))
  }

  /** Specific rules first, then fewer wildcards, then longer target names, then by name. */
  predicate CompileLe(a: SeverityRule, b: SeverityRule) {
    var x, y := a.path.target.name, b.path.target.name;
    if a.specificity != b.specificity then a.specificity > b.specificity
    else if a.wildcardCount != b.wildcardCount then a.wildcardCount < b.wildcardCount
    else if |x| != |y| then |x| > |y|
    else StrLe(x, y)
  }

  lemma CompileLeIsTotalPreorder()
    ensures TotalPreorder(CompileLe)
  {
    forall a, b ensures CompileLe(a, b) || CompileLe(b, a) {
      StrLeTotal(a.path.target.name, b.path.target.name);
    }
    forall a, b, c | CompileLe(a, b) && CompileLe(b, c) ensures CompileLe(a, c) {
      var x, y, z := a.path.target.name, b.path.target.name, c.path.target.name;
      if StrLe(x, y) && StrLe(y, z) { StrLeTransitive(x, y, z); }
    }
  }

  /** `rules` are, in the order of the sort, one rule per entry of the severity table. */
  ghost predicate CompiledFrom(severity: map<string, SeverityValue>, keys: seq<string>, rules: seq<SeverityRule>) {
    && (forall k :: k in severity ==> RuleOf(k, severity[k]).Ok?)
    && multiset(keys) == multiset(severity.Keys) && (forall k :: k in keys ==> k in severity)
    && |rules| == |keys|
    && SortedBy(rules, CompileLe)
    && multiset(rules) == multiset(RulesOf(severity, keys))
  }

  ghost function RulesOf(severity: map<string, SeverityValue>, keys: seq<string>): seq<SeverityRule>
    requires forall k :: k in keys ==> k in severity && RuleOf(k, severity[k]).Ok?
  {
    seq(|keys|, i requires 0 <= i < |keys| => assert keys[i] in keys; RuleOf(keys[i], severity[keys[i]]).value)
  }

  method ParseSeverityRules(severity: map<string, SeverityValue>)
    returns (r: Result<seq<SeverityRule>, CompileError>, ghost keys: seq<string>)
    ensures r.Ok? <==> forall k :: k in severity ==> RuleOf(k, severity[k]).Ok?
    ensures r.Ok? ==> CompiledFrom(severity, keys, r.value)
    ensures r.Err? ==> exists k :: k in severity && RuleOf(k, severity[k]) == Err(r.error)
  {
    hide RuleOf, CompileLe, Sort, CompiledFrom;
    var rules: seq<SeverityRule> := [];
    keys := [];
    var todo := severity.Keys;
    while todo != {}
      invariant todo <= severity.Keys
      invariant forall k :: k in keys ==> k in severity && RuleOf(k, severity[k]).Ok?
      invariant forall k :: k in severity && k !in todo ==> k in keys
      invariant multiset(keys) == multiset(severity.Keys - todo)
      invariant rules == RulesOf(severity, keys)
    {
      var text :| text in todo;
      var rule := RuleOf(text, severity[text]);
      if rule.Err? {
        return Err(rule.error), keys;
      }
      assert severity.Keys - (todo - {text}) == (severity.Keys - todo) + {text};
      assert RulesOf(severity, keys + [text]) == RulesOf(severity, keys) + [rule.value];
      todo := todo - {text};
      rules := rules + [rule.value];
      keys := keys + [text];
    }
    assert severity.Keys - todo == severity.Keys;
    SortedAreCompiled(severity, keys);
    r := Ok(Sort(rules, CompileLe));
  }

  lemma SortedAreCompiled(severity: map<string, SeverityValue>, keys: seq<string>)
    requires forall k :: k in severity ==> RuleOf(k, severity[k]).Ok?
    requires multiset(keys) == multiset(severity.Keys) && forall k :: k in keys ==> k in severity
    ensures CompiledFrom(severity, keys, Sort(RulesOf(severity, keys), CompileLe))
  {
    hide RuleOf;
    var rules := RulesOf(severity, keys);
    CompileLeIsTotalPreorder();
    SortSorts(rules, CompileLe);
    SortContents(rules, CompileLe);
    MultisetMembers(Sort(rules, CompileLe), rules);
  }

  /** Compiled rules come by falling specificity, rising number of wildcards, falling length of name, then by name. */
  lemma CompiledOrder(severity: map<string, SeverityValue>, keys: seq<string>, rules: seq<SeverityRule>, i: nat, j: nat)
    requires CompiledFrom(severity, keys, rules) && i < j < |rules|
    ensures var a, b := rules[i], rules[j];
      var x, y := a.path.target.name, b.path.target.name;
      && a.specificity >= b.specificity
      && (a.specificity == b.specificity ==> a.wildcardCount <= b.wildcardCount)
      && (a.specificity == b.specificity && a.wildcardCount == b.wildcardCount ==> |x| >= |y|)
      && (a.specificity == b.specificity && a.wildcardCount == b.wildcardCount && |x| == |y| ==> StrLe(x, y))
  {
    assert CompileLe(rules[i], rules[j]);
    hide CompiledFrom, StrLe;
  }

  // ---- Acknowledgement tables

  predicate ValidAckKey(key: string) {
    key == "root" || ((HasPrefix(key, "package/") || HasPrefix(key, "source/")) && |Split(StripQuery(key), '/')| >= 3)
  }

  ghost predicate ValidTable(table: AckTable) {
    forall k :: k in table ==> ValidAckKey(k) && table[k].checks != []
  }

  lemma StripQueryKeeps(key: string, prefix: string)
    requires '?' !in prefix && prefix != ""
    ensures HasPrefix(key, prefix) <==> HasPrefix(StripQuery(key), prefix)
  {
    var i := IndexOf(key, '?');
    if HasPrefix(key, prefix) {
      assert forall k :: 0 <= k < |prefix| ==> key[k] == prefix[k] && prefix[k] in prefix;
      assert key[..i] == key[..|prefix|] + key[|prefix|..i];
    }
  }

  lemma ThreeSegments(kind: string, rest: string)
    requires '/' !in kind
    ensures |Split(kind + "/" + rest, '/')| >= 3 <==> '/' in rest
  {
    SplitHead(kind, '/', rest);
    assert kind + "/" + rest == kind + ['/'] + rest;
    var i := IndexOf(rest, '/');
    assert rest[..|rest|] == rest;
    assert i < |rest| <==> '/' in rest;
  }

  lemma SlashMeans(rest: string)
    ensures '/' in rest <==> exists a, b :: rest == a + "/" + b
  {
    if '/' in rest {
      var i := IndexOf(rest, '/');
      assert rest[..|rest|] == rest;
      assert rest == rest[..i] + "/" + rest[i + 1..];
    }
    if a, b :| rest == a + "/" + b {
      assert rest[|a|] == '/';
    }
  }

  lemma KeyKindMeans(bare: string, kind: string)
    requires '/' !in kind
    ensures HasPrefix(bare, kind + "/") && |Split(bare, '/')| >= 3 <==> exists a, b :: bare == kind + "/" + a + "/" + b
  {
    hide Split;
    forall a, b | bare == kind + "/" + a + "/" + b ensures bare == kind + "/" + (a + "/" + b) {}
    if HasPrefix(bare, kind + "/") {
      var rest := bare[|kind| + 1..];
      assert bare == kind + "/" + rest;
      ThreeSegments(kind, rest);
      SlashMeans(rest);
      if a, b :| rest == a + "/" + b { assert bare == kind + "/" + a + "/" + b; }
      if a, b :| bare == kind + "/" + a + "/" + b { assert rest == a + "/" + b; }
    }
  }

  /** The keys accepted are "root" and those with two more segments after "package" or "source", queries aside. */
  lemma ValidAckKeyIff(key: string)
    ensures ValidAckKey(key) <==>
      key == "root" || exists kind, a, b :: kind in {"package", "source"} && StripQuery(key) == kind + "/" + a + "/" + b
  {
    hide Split, StripQuery;
    var bare := StripQuery(key);
    StripQueryKeeps(key, "package/");
    StripQueryKeeps(key, "source/");
    assert "package" + "/" == "package/" && "source" + "/" == "source/";
    KeyKindMeans(bare, "package");
    KeyKindMeans(bare, "source");
  }

  method CompileExpectedTable(table: AckTable) returns (r: Result<AckTable, CompileError>)
    ensures r.Ok? <==> ValidTable(table)
    ensures r.Ok? ==> r.value == table
  {
    var out: AckTable := map[];
    var todo := table.Keys;
    while todo != {}
      invariant todo <= table.Keys
      invariant out == map k | k in table && k !in todo :: table[k]
      invariant forall k :: k in table && k !in todo ==> ValidAckKey(k) && table[k].checks != []
    {
      var key :| key in todo;
      if !ValidAckKey(key) {
        return Err(BadAckKey(key));
      }
      if |table[key].checks| == 0 {
        return Err(NoChecks(key));
      }
      out := out[key := table[key]];
      todo := todo - {key};
    }
    assert out == table;
    r := Ok(out);
  }

  // ---- Whole policies

  ghost predicate Compiles(f: PolicyFile) {
    && (f.version == 0 || f.version == CURRENT_VERSION)
    && (forall k :: k in f.severity ==> RuleOf(k, f.severity[k]).Ok?)
    && ValidTable(f.expectedFailures) && ValidTable(f.expectedWarnings)
  }

  method Compile(f: PolicyFile) returns (r: Result<CompiledPolicy, CompileError>, ghost keys: seq<string>)
    ensures r.Ok? <==> Compiles(f)
    ensures r.Ok? ==>
      && CompiledFrom(f.severity, keys, r.value.rules)
      && r.value.expectedFailures == f.expectedFailures && r.value.expectedWarnings == f.expectedWarnings
      && r.value.workflowMode == f.workflowMode
  {
    keys := [];
    if f.version != 0 && f.version != CURRENT_VERSION {
      return Err(UnsupportedVersion(f.version)), keys;
    }
    var rules: Result<seq<SeverityRule>, CompileError>;
    rules, keys := ParseSeverityRules(f.severity);
    if rules.Err? {
      return Err(rules.error), keys;
    }
    var failures := CompileExpectedTable(f.expectedFailures);
    if failures.Err? {
      return Err(failures.error), keys;
    }
    var warnings := CompileExpectedTable(f.expectedWarnings);
    if warnings.Err? {
      return Err(warnings.error), keys;
    }
    r := Ok(CompiledPolicy(rules.value, failures.value, warnings.value, f.workflowMode));
  }

  /** Rule `i` is the first with its printed path. */
  ghost predicate FirstOfItsPath(rules: seq<SeverityRule>, isPrint: char -> bool, i: nat)
    requires i < |rules|
  {
    forall j :: 0 <= j < i ==> SeverityPathToString(rules[j].path, isPrint) != SeverityPathToString(rules[i].path, isPrint)
  }

  /** The table holds, under every printed path, the value of the first rule with that path. */
  ghost predicate HoldsFirstValues(rules: seq<SeverityRule>, isPrint: char -> bool, severity: map<string, SeverityValue>) {
    && (forall i :: 0 <= i < |rules| ==> SeverityPathToString(rules[i].path, isPrint) in severity)
    && (forall k :: k in severity ==> HoldsFirstValue(rules, isPrint, k, severity[k]))
  }

  ghost predicate HoldsFirstValue(rules: seq<SeverityRule>, isPrint: char -> bool, k: string, v: SeverityValue) {
    exists i :: 0 <= i < |rules| && k == SeverityPathToString(rules[i].path, isPrint)
             && FirstOfItsPath(rules, isPrint, i) && v == rules[i].value
  }

  method ToPolicy(p: CompiledPolicy, isPrint: char -> bool) returns (f: PolicyFile)
    ensures f.version == CURRENT_VERSION && f.workflowMode == p.workflowMode
    ensures f.expectedFailures == p.expectedFailures && f.expectedWarnings == p.expectedWarnings
    ensures HoldsFirstValues(p.rules, isPrint, f.severity)
  {
    hide SeverityPathToString;
    var severity: map<string, SeverityValue> := map[];
    for i := 0 to |p.rules|
      invariant forall j :: 0 <= j < i ==> SeverityPathToString(p.rules[j].path, isPrint) in severity
      invariant forall k :: k in severity ==> HoldsFirstValue(p.rules, isPrint, k, severity[k])
      invariant forall k :: k in severity ==> exists j :: 0 <= j < i && k == SeverityPathToString(p.rules[j].path, isPrint)
    {
      var path := SeverityPathToString(p.rules[i].path, isPrint);
      if path !in severity {
        assert FirstOfItsPath(p.rules, isPrint, i);
        assert HoldsFirstValue(p.rules, isPrint, path, p.rules[i].value);
        severity := severity[path := p.rules[i].value];
      }
    }
    f := PolicyFile(CURRENT_VERSION, p.workflowMode, severity, p.expectedFailures, p.expectedWarnings);
  }

  // ---- Compiling what was written back

  /** A rule as the loader builds it, with a path that prints without escapes. */
  ghost predicate Writable(r: SeverityRule, isPrint: char -> bool) {
    IsParsed(r.path) && NeedsNoEscape(r.path, isPrint) && !r.value.severity.Unknown? && r.specificity == ComputeSpecificity(r.path)
  }

  lemma PrintedRule(r: SeverityRule, isPrint: char -> bool)
    requires Writable(r, isPrint)
    ensures ParseSeverityPath(SeverityPathToString(r.path, isPrint)) == Ok(r.path)
    ensures RuleOf(SeverityPathToString(r.path, isPrint), r.value).Ok?
    ensures SameEffect(RuleOf(SeverityPathToString(r.path, isPrint), r.value).value, r)
  {
    PrintedParses(r.path, isPrint);
    if r.path.sourcePath.Some? { QuotedBodyFacts(r.path.sourcePath.value, isPrint); }
  }

  lemma RulesOfMembers(severity: map<string, SeverityValue>, keys: seq<string>, rules: seq<SeverityRule>)
    requires CompiledFrom(severity, keys, rules)
    ensures forall k :: k in severity ==> RuleOf(k, severity[k]).value in rules
    ensures forall r :: r in rules ==> exists k :: k in severity && RuleOf(k, severity[k]) == Ok(r)
  {
    hide RuleOf;
    forall k ensures k in keys <==> k in severity { assert k in keys <==> k in multiset(keys); }
    var all := RulesOf(severity, keys);
    MultisetMembers(rules, all);
    forall k | k in severity ensures RuleOf(k, severity[k]).value in rules {
      var i :| 0 <= i < |keys| && keys[i] == k;
      assert all[i] in all;
    }
    forall r | r in rules ensures exists k :: k in severity && RuleOf(k, severity[k]) == Ok(r) {
      var i :| 0 <= i < |all| && all[i] == r;
      assert keys[i] in severity;
    }
  }

  /** Of two rules that print alike, the earlier is never outranked by the later. */
  ghost predicate FirstNeverOutranked(rules: seq<SeverityRule>, isPrint: char -> bool) {
    forall i, j, t :: 0 <= i < j < |rules| && SeverityPathToString(rules[i].path, isPrint) == SeverityPathToString(rules[j].path, isPrint) ==>
      Rank(Resolve(rules[i].value, t).0) >= Rank(Resolve(rules[j].value, t).0)
  }

  ghost predicate PrintedDistinct(rules: seq<SeverityRule>, isPrint: char -> bool) {
    forall i, j :: 0 <= i < j < |rules| ==> SeverityPathToString(rules[i].path, isPrint) != SeverityPathToString(rules[j].path, isPrint)
  }

  /** Every rule of the recompiled policy stands for the first rule with its printed path. */
  lemma KeptIsFirst(rules: seq<SeverityRule>, isPrint: char -> bool, severity: map<string, SeverityValue>,
                    keys: seq<string>, again: seq<SeverityRule>, r: SeverityRule) returns (i: nat)
    requires forall r :: r in rules ==> Writable(r, isPrint)
    requires HoldsFirstValues(rules, isPrint, severity) && CompiledFrom(severity, keys, again) && r in again
    ensures i < |rules| && FirstOfItsPath(rules, isPrint, i) && SameEffect(r, rules[i])
  {
    hide SeverityPathToString, RuleOf, Writable, CompiledFrom, FirstOfItsPath;
    RulesOfMembers(severity, keys, again);
    var k :| k in severity && RuleOf(k, severity[k]) == Ok(r);
    assert HoldsFirstValue(rules, isPrint, k, severity[k]);
    i :| 0 <= i < |rules| && k == SeverityPathToString(rules[i].path, isPrint)
      && FirstOfItsPath(rules, isPrint, i) && severity[k] == rules[i].value;
    assert rules[i] in rules;
    PrintedRule(rules[i], isPrint);
  }

  lemma RewrittenRepresented(rules: seq<SeverityRule>, isPrint: char -> bool, severity: map<string, SeverityValue>,
                             keys: seq<string>, again: seq<SeverityRule>)
    requires forall r :: r in rules ==> Writable(r, isPrint)
    requires HoldsFirstValues(rules, isPrint, severity) && CompiledFrom(severity, keys, again)
    ensures Represented(again, rules)
  {
    hide Writable, HoldsFirstValues, CompiledFrom, FirstOfItsPath;
    forall r | r in again ensures RepresentedIn(r, rules) {
      var i := KeptIsFirst(rules, isPrint, severity, keys, again, r);
      assert rules[i] in rules;
    }
  }

  lemma FirstIsKept(rules: seq<SeverityRule>, isPrint: char -> bool, severity: map<string, SeverityValue>,
                    keys: seq<string>, again: seq<SeverityRule>, i: nat)
    requires forall r :: r in rules ==> Writable(r, isPrint)
    requires HoldsFirstValues(rules, isPrint, severity) && CompiledFrom(severity, keys, again)
    requires i < |rules| && FirstOfItsPath(rules, isPrint, i)
    ensures RepresentedIn(rules[i], again)
  {
    hide SeverityPathToString, RuleOf, CompiledFrom, Writable;
    var k := SeverityPathToString(rules[i].path, isPrint);
    assert HoldsFirstValue(rules, isPrint, k, severity[k]);
    var j :| 0 <= j < |rules| && k == SeverityPathToString(rules[j].path, isPrint)
          && FirstOfItsPath(rules, isPrint, j) && severity[k] == rules[j].value;
    assert i == j;
    assert rules[i] in rules;
    PrintedRule(rules[i], isPrint);
    RulesOfMembers(severity, keys, again);
  }

  /** Every rule has a first rule of its printed path, which is on the same path and is kept. */
  lemma KeptForPath(rules: seq<SeverityRule>, isPrint: char -> bool, severity: map<string, SeverityValue>,
                    keys: seq<string>, again: seq<SeverityRule>, j: nat) returns (i: nat)
    requires forall r :: r in rules ==> Writable(r, isPrint)
    requires HoldsFirstValues(rules, isPrint, severity) && CompiledFrom(severity, keys, again)
    requires j < |rules|
    ensures i <= j && FirstOfItsPath(rules, isPrint, i) && RepresentedIn(rules[i], again)
    ensures SeverityPathToString(rules[i].path, isPrint) == SeverityPathToString(rules[j].path, isPrint)
    ensures rules[i].path == rules[j].path && rules[i].specificity == rules[j].specificity
  {
    hide SeverityPathToString, RuleOf, CompiledFrom;
    var k := SeverityPathToString(rules[j].path, isPrint);
    assert HoldsFirstValue(rules, isPrint, k, severity[k]);
    i :| 0 <= i < |rules| && k == SeverityPathToString(rules[i].path, isPrint) && FirstOfItsPath(rules, isPrint, i);
    assert rules[i] in rules && rules[j] in rules;
    PrintedRule(rules[i], isPrint);
    PrintedRule(rules[j], isPrint);
    FirstIsKept(rules, isPrint, severity, keys, again, i);
  }

  /** Whatever matches, the recompiled policy decides by a rule at least as specific. */
  lemma KeptAsSpecific(rules: seq<SeverityRule>, isPrint: char -> bool, severity: map<string, SeverityValue>,
                       keys: seq<string>, again: seq<SeverityRule>, ctx: Context, j: nat)
    requires forall r :: r in rules ==> Writable(r, isPrint)
    requires HoldsFirstValues(rules, isPrint, severity) && CompiledFrom(severity, keys, again)
    requires j < |rules| && Matches(rules[j], ctx)
    ensures DecidingWeight(again, ctx).Some? && DecidingWeight(again, ctx).value.specificity >= rules[j].specificity
    ensures FirstNeverOutranked(rules, isPrint) ==> !Lighter(DecidingWeight(again, ctx).value, WeightOf(rules[j], ctx.time))
  {
    hide SeverityPathToString, Writable, HoldsFirstValues, CompiledFrom, FirstOfItsPath, DecidingWeight, Matches, Resolve;
    var i := KeptForPath(rules, isPrint, severity, keys, again, j);
    MatchesByPath(rules[i], rules[j], ctx);
    var s :| s in again && SameEffect(rules[i], s);
    SameEffectSame(rules[i], s, ctx);
    WeightAtLeast(again, ctx, s);
  }

  /**
   * Writing a compiled policy back and compiling it again gives the same severity in every context,
   * provided that of two rules with the same printed path the first is never outranked.
   */
  lemma RecompiledSameSeverity(rules: seq<SeverityRule>, isPrint: char -> bool, severity: map<string, SeverityValue>,
                               keys: seq<string>, again: seq<SeverityRule>, ctx: Context)
    requires forall r :: r in rules ==> Writable(r, isPrint)
    requires FirstNeverOutranked(rules, isPrint)
    requires HoldsFirstValues(rules, isPrint, severity) && CompiledFrom(severity, keys, again)
    ensures DecidingWeight(again, ctx) == DecidingWeight(rules, ctx)
    ensures SameVerdict(SeverityOf(again, ctx), SeverityOf(rules, ctx))
  {
    hide Writable, CompiledFrom, HoldsFirstValues, FirstNeverOutranked;
    RewrittenRepresented(rules, isPrint, severity, keys, again);
    RepresentedNotHeavier(again, rules, ctx);
    if !NoneMatches(rules, ctx) {
      KeptAsSpecific(rules, isPrint, severity, keys, again, ctx, Decider(rules, ctx));
    }
    SameWeightSameVerdict(again, rules, ctx);
  }

  lemma DistinctNeverOutranked(rules: seq<SeverityRule>, isPrint: char -> bool)
    requires PrintedDistinct(rules, isPrint)
    ensures FirstNeverOutranked(rules, isPrint)
  {}

  /** Some matching rule as heavy as the deciding one is the first with its printed path. */
  ghost predicate HeaviestIsFirst(rules: seq<SeverityRule>, isPrint: char -> bool, ctx: Context) {
    exists i: nat :: FirstAndHeaviest(rules, isPrint, ctx, i)
  }

  ghost predicate FirstAndHeaviest(rules: seq<SeverityRule>, isPrint: char -> bool, ctx: Context, i: nat) {
    && i < |rules| && Matches(rules[i], ctx) && FirstOfItsPath(rules, isPrint, i)
    && DecidingWeight(rules, ctx) == Some(WeightOf(rules[i], ctx.time))
  }

  /** In one context, writing back and compiling again keeps the severity in exactly these cases. */
  lemma RecompiledSameIff(rules: seq<SeverityRule>, isPrint: char -> bool, severity: map<string, SeverityValue>,
                          keys: seq<string>, again: seq<SeverityRule>, ctx: Context)
    requires forall r :: r in rules ==> Writable(r, isPrint)
    requires HoldsFirstValues(rules, isPrint, severity) && CompiledFrom(severity, keys, again)
    ensures SameVerdict(SeverityOf(again, ctx), SeverityOf(rules, ctx)) <==> NoneMatches(rules, ctx) || HeaviestIsFirst(rules, isPrint, ctx)
  {
    hide Writable, CompiledFrom, HoldsFirstValues, FirstOfItsPath, HeaviestIsFirst, SeverityOf, SameVerdict;
    RewrittenRepresented(rules, isPrint, severity, keys, again);
    RepresentedNotHeavier(again, rules, ctx);
    if DecidingWeight(again, ctx) == DecidingWeight(rules, ctx) { SameWeightSameVerdict(again, rules, ctx); }
    if !NoneMatches(rules, ctx) {
      SameWeightIff(rules, isPrint, severity, keys, again, ctx);
      KeptAsSpecific(rules, isPrint, severity, keys, again, ctx, Decider(rules, ctx));
      if SameVerdict(SeverityOf(again, ctx), SeverityOf(rules, ctx)) { SameVerdictSameRank(again, rules, ctx); }
    }
  }

  lemma SameVerdictSameRank(a: seq<SeverityRule>, b: seq<SeverityRule>, ctx: Context)
    requires SameVerdict(SeverityOf(a, ctx), SeverityOf(b, ctx)) && DecidingWeight(a, ctx).Some? && DecidingWeight(b, ctx).Some?
    ensures DecidingWeight(a, ctx).value.rank == DecidingWeight(b, ctx).value.rank
  {}

  lemma SameWeightIff(rules: seq<SeverityRule>, isPrint: char -> bool, severity: map<string, SeverityValue>,
                      keys: seq<string>, again: seq<SeverityRule>, ctx: Context)
    requires forall r :: r in rules ==> Writable(r, isPrint)
    requires HoldsFirstValues(rules, isPrint, severity) && CompiledFrom(severity, keys, again) && !NoneMatches(rules, ctx)
    ensures DecidingWeight(again, ctx) == DecidingWeight(rules, ctx) <==> HeaviestIsFirst(rules, isPrint, ctx)
  {
    hide Writable, CompiledFrom, HoldsFirstValues, FirstOfItsPath, WeightOf;
    RewrittenRepresented(rules, isPrint, severity, keys, again);
    RepresentedNotHeavier(again, rules, ctx);
    if DecidingWeight(again, ctx) == DecidingWeight(rules, ctx) {
      var r := again[Decider(again, ctx)];
      assert r in again;
      var i := KeptIsFirst(rules, isPrint, severity, keys, again, r);
      SameEffectSame(r, rules[i], ctx);
      assert FirstAndHeaviest(rules, isPrint, ctx, i);
    }
    if i: nat :| FirstAndHeaviest(rules, isPrint, ctx, i) {
      FirstIsKept(rules, isPrint, severity, keys, again, i);
      var s :| s in again && SameEffect(rules[i], s);
      SameEffectSame(rules[i], s, ctx);
      WeightAtLeast(again, ctx, s);
    }
  }

  lemma SameEffectSame(a: SeverityRule, b: SeverityRule, ctx: Context)
    requires SameEffect(a, b)
    ensures Matches(a, ctx) <==> Matches(b, ctx)
    ensures WeightOf(a, ctx.time) == WeightOf(b, ctx.time)
  {}

  /** A written-back policy of writable rules compiles again. */
  lemma WrittenBackCompiles(p: CompiledPolicy, isPrint: char -> bool, f: PolicyFile)
    requires forall r :: r in p.rules ==> Writable(r, isPrint)
    requires ValidTable(p.expectedFailures) && ValidTable(p.expectedWarnings)
    requires f.version == CURRENT_VERSION && f.expectedFailures == p.expectedFailures && f.expectedWarnings == p.expectedWarnings
    requires HoldsFirstValues(p.rules, isPrint, f.severity)
    ensures Compiles(f)
  {
    hide SeverityPathToString, RuleOf;
    forall k | k in f.severity ensures RuleOf(k, f.severity[k]).Ok? {
      assert HoldsFirstValue(p.rules, isPrint, k, f.severity[k]);
      var i :| 0 <= i < |p.rules| && k == SeverityPathToString(p.rules[i].path, isPrint) && f.severity[k] == p.rules[i].value;
      assert p.rules[i] in p.rules;
      PrintedRule(p.rules[i], isPrint);
    }
  }

  /**
   * The proviso is needed, and merging can break it: when a repository softens a blocking rule of the
   * base under the same path, the merged policy still blocks, but its written-back form only warns.
   */
  lemma MergedPolicyNotPreserved(path: Path, isPrint: char -> bool, base: SeverityRule, overlay: SeverityRule,
                                 severity: map<string, SeverityValue>, keys: seq<string>, again: seq<SeverityRule>, ctx: Context)
    requires Writable(base, isPrint) && base.path == path && base.value == SeverityValue(Blocking, "", None)
    requires overlay == base.(value := SeverityValue(Warning, "", None))
    requires HoldsFirstValues(MergedRules([base], [overlay]), isPrint, severity) && CompiledFrom(severity, keys, again)
    requires Matches(base, ctx)
    ensures SeverityOf(MergedRules([base], [overlay]), ctx).Ok? && SeverityOf(again, ctx).Ok?
    ensures SeverityOf(MergedRules([base], [overlay]), ctx).value.severity == Blocking
    ensures SeverityOf(again, ctx).value.severity == Warning
  {
    hide SeverityPathToString, RuleOf, CompiledFrom, Matches, SeverityOf, MergedRules;
    var all := MergedRules([base], [overlay]);
    var b, o := base.(isOverlay := false), overlay.(isOverlay := true);
    TwoRulesSorted(base, overlay);
    assert all == [o, b];
    assert Matches(o, ctx) && Matches(b, ctx) by { MatchesByPath(base, o, ctx); MatchesByPath(base, b, ctx); }
    assert b in all;
    BlockingDecides(all, b, ctx);
    PrintedRule(o, isPrint);
    RulesOfMembers(severity, keys, again);
    var k := SeverityPathToString(path, isPrint);
    assert all[0].path == path && k in severity;
    forall r | r in again ensures SameEffect(r, o) {
      var x :| x in severity && RuleOf(x, severity[x]) == Ok(r);
      assert HoldsFirstValue(all, isPrint, x, severity[x]);
      assert !FirstOfItsPath(all, isPrint, 1) by { assert SeverityPathToString(all[0].path, isPrint) == SeverityPathToString(all[1].path, isPrint); }
      assert x == k && severity[x] == o.value;
    }
    var s := RuleOf(k, severity[k]).value;
    assert s in again;
    WarningDecides(again, s, o, ctx);
  }

  lemma TwoRulesSorted(base: SeverityRule, overlay: SeverityRule)
    requires base.specificity == overlay.specificity && base.wildcardCount == overlay.wildcardCount
    ensures MergedRules([base], [overlay]) == [overlay.(isOverlay := true), base.(isOverlay := false)]
  {
    var b, o := base.(isOverlay := false), overlay.(isOverlay := true);
    assert Tagged([base], false) + Tagged([overlay], true) == [b, o];
    assert [b, o][1..] == [o] && [o][1..] == [];
    assert Sort([o], MergeLe) == [o];
    assert Insert(b, [o], MergeLe) == [o, b];
  }

  lemma MatchesByPath(a: SeverityRule, b: SeverityRule, ctx: Context)
    requires a.path == b.path
    ensures Matches(a, ctx) <==> Matches(b, ctx)
  {}

  lemma BlockingDecides(rules: seq<SeverityRule>, b: SeverityRule, ctx: Context)
    requires b in rules && Matches(b, ctx) && b.value.severity == Blocking
    requires forall r :: r in rules ==> r.specificity == b.specificity
    ensures SeverityOf(rules, ctx).Ok? && SeverityOf(rules, ctx).value.severity == Blocking
  {
    hide Matches;
    var j :| 0 <= j < |rules| && rules[j] == b;
    assert rules[Decider(rules, ctx)] in rules;
  }

  lemma WarningDecides(rules: seq<SeverityRule>, s: SeverityRule, o: SeverityRule, ctx: Context)
    requires s in rules && Matches(o, ctx) && o.value == SeverityValue(Warning, "", None)
    requires forall r :: r in rules ==> SameEffect(r, o)
    ensures SeverityOf(rules, ctx).Ok? && SeverityOf(rules, ctx).value.severity == Warning
  {
    MatchesByPath(o, s, ctx);
    hide Matches;
    assert rules[Decider(rules, ctx)] in rules;
  }
}
