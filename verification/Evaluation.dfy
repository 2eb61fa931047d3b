/** Grading every violation of every analysis against a policy at a given time. */
module Evaluation {
  import opened Wrappers
  import opened Ordering
  import opened Text
  import opened Models
  import opened Policy

  datatype Violation = Violation(checkCode: string, rationale: string, evidence: seq<string>)

  datatype Analysis = Analysis(
    analysisID: string, dependencyPath: seq<string>, dev: bool, rootLocation: Option<Location>, violations: seq<Violation>)

  datatype FindingKind = IsBlocking | IsWarning | IsAcknowledged | IsExpired | IsIgnored

  datatype Finding = Finding(
    kind: FindingKind, package: string, check: string, categories: seq<string>, rationale: string, evidence: seq<string>,
    dependencyPath: seq<string>, rootLocation: Option<Location>, dev: bool, note: Note, matchedRule: Option<SeverityRule>)

  datatype Status = PASS | WARNING | BLOCKED

  datatype Summary = Summary(
    totalPackages: nat, unblockedPackages: int, blocking: nat, warning: nat, acknowledged: nat, expired: nat, ignored: nat)

  datatype EvaluationResult = EvaluationResult(status: Status, workflowMode: string, findings: seq<Finding>, summary: Summary)

  /** The policy in force, the rules used when there is none, and the categories of every check. */
  datatype Setting = Setting(policy: Option<CompiledPolicy>, defaultRules: seq<SeverityRule>, categories: map<string, seq<string>>) {
    function Rules(): seq<SeverityRule> {
      if policy.Some? then policy.value.rules else defaultRules
    }
    function Failures(): AckTable {
      if policy.Some? then policy.value.expectedFailures else map[]
    }
    function Warnings(): AckTable {
      if policy.Some? then policy.value.expectedWarnings else map[]
    }
    function Mode(): string {
      if policy.Some? && policy.value.workflowMode.Some? && policy.value.workflowMode.value != "" then policy.value.workflowMode.value
      else "active"
    }
  }

  // ---- Analysis identifiers

  function ExtractEcosystem(analysisID: string): string {
    var i := if HasPrefix(analysisID, "package/") then IndexOf(analysisID[8..], '/') else 0;
    if HasPrefix(analysisID, "package/") && 0 < i < |analysisID| - 8 then analysisID[8..][..i]
    else if HasPrefix(analysisID, "source/") then "source"
    else ""
  }

  function ExtractSourcePath(analysisID: string): string {
    if HasPrefix(analysisID, "source/") then StripQuery(analysisID[7..]) else ""
  }

  // ---- One violation

  datatype Case = Case(analysis: Analysis, violation: Violation)

  /** What the two acknowledgement lookups of a case return. */
  datatype AckChoice = AckChoice(failure: Option<Acknowledgement>, warning: Option<Acknowledgement>)

  ghost predicate ValidChoice(s: Setting, c: Case, choice: AckChoice) {
    var id, code, depth := c.analysis.analysisID, c.violation.checkCode, |c.analysis.dependencyPath|;
    IsAck(s.Failures(), id, code, depth, choice.failure) && IsAck(s.Warnings(), id, code, depth, choice.warning)
  }

  function CategoriesOf(s: Setting, code: string): seq<string> {
    if code in s.categories then s.categories[code] else []
  }

  function ContextOf(s: Setting, c: Case, time: int): Context {
    Context(ExtractSourcePath(c.analysis.analysisID), ExtractEcosystem(c.analysis.analysisID), |c.analysis.dependencyPath|,
            c.analysis.dev, c.violation.checkCode, CategoriesOf(s, c.violation.checkCode), time)
  }

  function Lapsed(ack: Acknowledgement, time: int): bool {
    ack.expires.Some? && ack.expires.value < time
  }

  /** The kind of a finding whose severity is known, and the note it carries. */
  function KindOf(severity: SeverityResult, choice: AckChoice, time: int): (FindingKind, Note) {
    if severity.severity == Ignore then (IsIgnored, severity.note)
    else if choice.failure.Some? then
      if Lapsed(choice.failure.value, time) then (IsExpired, ExpiredBy(choice.failure.value))
      else (IsAcknowledged, AcknowledgedBy(choice.failure.value))
    else if severity.severity != Blocking && choice.warning.Some? then
      if Lapsed(choice.warning.value, time) then (IsWarning, ExpiredBy(choice.warning.value))
      else (IsAcknowledged, AcknowledgedBy(choice.warning.value))
    else (if severity.severity == Blocking then IsBlocking else IsWarning, severity.note)
  }

  ghost function SeverityAt(s: Setting, c: Case, time: int): Result<SeverityResult, PolicyError> {
    SeverityOf(s.Rules(), ContextOf(s, c, time))
  }

  function FindingOf(s: Setting, c: Case, severity: SeverityResult, kind: FindingKind, note: Note): Finding {
    Finding(kind, c.analysis.analysisID, c.violation.checkCode, Sort(CategoriesOf(s, c.violation.checkCode), StrLe),
            c.violation.rationale, c.violation.evidence, c.analysis.dependencyPath, c.analysis.rootLocation, c.analysis.dev,
            note, severity.matchedRule)
  }

  ghost function Classify(s: Setting, c: Case, choice: AckChoice, time: int): Result<Finding, PolicyError> {
    match SeverityAt(s, c, time)
    case Err(e) => Err(e)
    case Ok(severity) => var (kind, note) := KindOf(severity, choice, time); Ok(FindingOf(s, c, severity, kind, note))
  }

  /** The case keeps its analysis from counting as unblocked. */
  ghost predicate Blocks(s: Setting, c: Case, choice: AckChoice, time: int) {
    && SeverityAt(s, c, time).Ok?
    && SeverityAt(s, c, time).value.severity == Blocking
    && KindOf(SeverityAt(s, c, time).value, choice, time).0 in {IsBlocking, IsExpired}
  }

  method EvaluateViolation(s: Setting, c: Case, time: int) returns (r: Result<Finding, PolicyError>, blocks: bool)
    ensures exists choice ::
      ValidChoice(s, c, choice) && r == Classify(s, c, choice, time) && blocks == Blocks(s, c, choice, time)
  {
    hide SeverityOf, IsAck, FindingOf;
    var id, code, depth := c.analysis.analysisID, c.violation.checkCode, |c.analysis.dependencyPath|;
    ghost var f := AckExists(s.Failures(), id, code, depth);
    ghost var w := AckExists(s.Warnings(), id, code, depth);
    ghost var choice := AckChoice(f, w);
    var severity := GetSeverity(s.Rules(), ContextOf(s, c, time));
    if severity.Err? {
      r, blocks := Err(severity.error), false;
    } else {
      var result := severity.value;
      var kind, note := if result.severity == Blocking then IsBlocking else IsWarning, result.note;
      if result.severity == Ignore {
        kind := IsIgnored;
      } else {
        var ack := MatchAck(s.Failures(), id, code, depth);
        choice := AckChoice(ack, w);
        if ack.Some? {
          kind := if Lapsed(ack.value, time) then IsExpired else IsAcknowledged;
          note := if Lapsed(ack.value, time) then ExpiredBy(ack.value) else AcknowledgedBy(ack.value);
        } else if result.severity != Blocking {
          ack := MatchAck(s.Warnings(), id, code, depth);
          choice := AckChoice(None, ack);
          if ack.Some? {
            kind := if Lapsed(ack.value, time) then IsWarning else IsAcknowledged;
            note := if Lapsed(ack.value, time) then ExpiredBy(ack.value) else AcknowledgedBy(ack.value);
          }
        }
      }
      r, blocks := Ok(FindingOf(s, c, result, kind, note)), result.severity == Blocking && kind in {IsBlocking, IsExpired};
    }
    assert ValidChoice(s, c, choice);
  }

  // ---- All violations, in order

  ghost function CasesOf(a: Analysis): seq<Case> {
    seq(|a.violations|, i requires 0 <= i < |a.violations| => Case(a, a.violations[i]))
  }

  ghost function Cases(analyses: seq<Analysis>): seq<Case> {
    if analyses == [] then [] else Cases(analyses[..|analyses| - 1]) + CasesOf(analyses[|analyses| - 1])
  }

  ghost predicate Graded(s: Setting, cases: seq<Case>, choices: seq<AckChoice>, time: int, findings: seq<Finding>) {
    && |choices| == |cases| == |findings|
    && forall i :: 0 <= i < |cases| ==>
         ValidChoice(s, cases[i], choices[i]) && Classify(s, cases[i], choices[i], time) == Ok(findings[i])
  }

  ghost function BlockedIDs(s: Setting, cases: seq<Case>, choices: seq<AckChoice>, time: int): set<string>
    requires |choices| == |cases|
  {
    set i | 0 <= i < |cases| && Blocks(s, cases[i], choices[i], time) :: cases[i].analysis.analysisID
  }

  ghost function Count(findings: seq<Finding>, kind: FindingKind): nat {
    if findings == [] then 0
    else Count(findings[..|findings| - 1], kind) + if findings[|findings| - 1].kind == kind then 1 else 0
  }

  ghost function StatusOf(findings: seq<Finding>): Status {
    if exists f :: f in findings && f.kind in {IsBlocking, IsExpired} then BLOCKED
    else if exists f :: f in findings && f.kind == IsWarning then WARNING
    else PASS
  }

  lemma {:induction false} CountZero(findings: seq<Finding>, kind: FindingKind)
    ensures Count(findings, kind) > 0 <==> exists f :: f in findings && f.kind == kind
  {
    if findings != [] {
      var n := |findings| - 1;
      CountZero(findings[..n], kind);
      assert findings == findings[..n] + [findings[n]];
    }
  }

  lemma {:induction false} CountsSum(findings: seq<Finding>)
    ensures Count(findings, IsBlocking) + Count(findings, IsWarning) + Count(findings, IsAcknowledged)
          + Count(findings, IsExpired) + Count(findings, IsIgnored) == |findings|
  {
    if findings != [] {
      CountsSum(findings[..|findings| - 1]);
    }
  }

  ghost predicate Tallies(summary: Summary, findings: seq<Finding>) {
    && summary.blocking == Count(findings, IsBlocking) && summary.warning == Count(findings, IsWarning)
    && summary.acknowledged == Count(findings, IsAcknowledged) && summary.expired == Count(findings, IsExpired)
    && summary.ignored == Count(findings, IsIgnored)
  }

  function Bump(s: Summary, kind: FindingKind): (t: Summary)
    ensures t.totalPackages == s.totalPackages
  {
    match kind
    case IsBlocking => s.(blocking := s.blocking + 1)
    case IsWarning => s.(warning := s.warning + 1)
    case IsAcknowledged => s.(acknowledged := s.acknowledged + 1)
    case IsExpired => s.(expired := s.expired + 1)
    case IsIgnored => s.(ignored := s.ignored + 1)
  }

  lemma CountAppend(findings: seq<Finding>, f: Finding)
    ensures forall kind :: Count(findings + [f], kind) == Count(findings, kind) + if f.kind == kind then 1 else 0
  {
    assert (findings + [f])[..|findings|] == findings;
  }

  lemma BlockedAppend(s: Setting, cases: seq<Case>, choices: seq<AckChoice>, time: int, c: Case, choice: AckChoice)
    requires |choices| == |cases|
    ensures BlockedIDs(s, cases + [c], choices + [choice], time) ==
      BlockedIDs(s, cases, choices, time) + if Blocks(s, c, choice, time) then {c.analysis.analysisID} else {}
  {
    hide Blocks;
    var more, chosen := cases + [c], choices + [choice];
    forall i | 0 <= i < |cases| ensures more[i] == cases[i] && chosen[i] == choices[i] {}
    forall id | id in BlockedIDs(s, cases, choices, time) ensures id in BlockedIDs(s, more, chosen, time) {
      var i :| 0 <= i < |cases| && Blocks(s, cases[i], choices[i], time) && cases[i].analysis.analysisID == id;
      assert Blocks(s, more[i], chosen[i], time);
    }
    if Blocks(s, c, choice, time) {
      assert Blocks(s, more[|cases|], chosen[|cases|], time);
    }
    forall id | id in BlockedIDs(s, more, chosen, time)
      ensures id in BlockedIDs(s, cases, choices, time) || (Blocks(s, c, choice, time) && id == c.analysis.analysisID)
    {
      var i :| 0 <= i < |more| && Blocks(s, more[i], chosen[i], time) && more[i].analysis.analysisID == id;
    }
  }

  /** The cases seen so far have been graded, counted, and their blocked analyses noted. */
  ghost predicate SoFar(s: Setting, cases: seq<Case>, choices: seq<AckChoice>, time: int,
                        findings: seq<Finding>, summary: Summary, withBlocking: set<string>) {
    && Graded(s, cases, choices, time, findings) && Tallies(summary, findings)
    && withBlocking == BlockedIDs(s, cases, choices, time)
  }

  lemma OneMore(s: Setting, cases: seq<Case>, choices: seq<AckChoice>, time: int, findings: seq<Finding>, summary: Summary,
                withBlocking: set<string>, c: Case, choice: AckChoice, f: Finding)
    requires SoFar(s, cases, choices, time, findings, summary, withBlocking)
    requires ValidChoice(s, c, choice) && Classify(s, c, choice, time) == Ok(f)
    ensures SoFar(s, cases + [c], choices + [choice], time, findings + [f], Bump(summary, f.kind),
                  withBlocking + if Blocks(s, c, choice, time) then {c.analysis.analysisID} else {})
  {
    hide ValidChoice, Classify, Blocks;
    CountAppend(findings, f);
    BlockedAppend(s, cases, choices, time, c, choice);
  }

  lemma AllGraded(s: Setting, cases: seq<Case>, choices: seq<AckChoice>, time: int,
                  findings: seq<Finding>, summary: Summary, withBlocking: set<string>)
    requires SoFar(s, cases, choices, time, findings, summary, withBlocking)
    ensures forall c :: c in cases ==> SeverityAt(s, c, time).Ok?
    ensures StatusOf(findings) == if summary.blocking > 0 || summary.expired > 0 then BLOCKED else if summary.warning > 0 then WARNING else PASS
  {
    hide ValidChoice, Classify, Blocks;
    CountZero(findings, IsBlocking);
    CountZero(findings, IsExpired);
    CountZero(findings, IsWarning);
    forall c | c in cases ensures SeverityAt(s, c, time).Ok? {
      var i :| 0 <= i < |cases| && cases[i] == c;
      ClassifyErr(s, c, choices[i], time);
    }
  }

  /** The inner loop: grades the violations of one analysis on top of what has been graded before. */
  method EvaluateAnalysis(s: Setting, analysis: Analysis, time: int, ghost cases: seq<Case>, ghost before: seq<AckChoice>,
                          findings0: seq<Finding>, summary0: Summary, withBlocking0: set<string>)
    returns (error: Option<PolicyError>, findings: seq<Finding>, summary: Summary, withBlocking: set<string>, ghost choices: seq<AckChoice>)
    requires SoFar(s, cases, before, time, findings0, summary0, withBlocking0)
    ensures error.None? ==> SoFar(s, cases + CasesOf(analysis), choices, time, findings, summary, withBlocking)
    ensures error.None? ==> summary.totalPackages == summary0.totalPackages
    ensures error.Some? ==> exists c :: c in CasesOf(analysis) && SeverityAt(s, c, time).Err?
  {
    hide *;
    findings, summary, withBlocking, choices := findings0, summary0, withBlocking0, before;
    ghost var all := CasesOf(analysis);
    CasesOfSize(analysis);
    assert cases + all[..0] == cases;
    for v := 0 to |analysis.violations|
      invariant |all| == |analysis.violations|
      invariant SoFar(s, cases + all[..v], choices, time, findings, summary, withBlocking)
      invariant summary.totalPackages == summary0.totalPackages
    {
      var c := Case(analysis, analysis.violations[v]);
      CaseAt(analysis, v);
      var finding, blocks := EvaluateViolation(s, c, time);
      ghost var choice :|
        ValidChoice(s, c, choice) && finding == Classify(s, c, choice, time) && blocks == Blocks(s, c, choice, time);
      if finding.Err? {
        ClassifyErr(s, c, choice, time);
        assert all[v] in all;
        return Some(finding.error), findings, summary, withBlocking, choices;
      }
      OneMore(s, cases + all[..v], choices, time, findings, summary, withBlocking, c, choice, finding.value);
      assert cases + all[..v + 1] == cases + all[..v] + [c];
      findings, choices := findings + [finding.value], choices + [choice];
      summary := Bump(summary, finding.value.kind);
      withBlocking := withBlocking + if blocks then {analysis.analysisID} else {};
    }
    assert all[..|all|] == all;
    error := None;
  }

  method Evaluate(s: Setting, analyses: seq<Analysis>, time: int)
    returns (r: Result<EvaluationResult, PolicyError>, ghost choices: seq<AckChoice>)
    ensures r.Ok? ==> Graded(s, Cases(analyses), choices, time, r.value.findings)
    ensures r.Ok? ==>
      && r.value.status == StatusOf(r.value.findings) && Tallies(r.value.summary, r.value.findings)
      && r.value.summary.totalPackages == |analyses| && r.value.workflowMode == s.Mode()
      && r.value.summary.unblockedPackages == |analyses| - |BlockedIDs(s, Cases(analyses), choices, time)|
    ensures r.Err? <==> exists c :: c in Cases(analyses) && SeverityAt(s, c, time).Err?
  {
    var findings: seq<Finding> := [];
    var summary := Summary(|analyses|, 0, 0, 0, 0, 0, 0);
    var withBlocking: set<string> := {};
    choices := [];
    assert SoFar(s, [], choices, time, findings, summary, withBlocking);
    hide *;
    NoCases(analyses);
    for a := 0 to |analyses|
      invariant SoFar(s, Cases(analyses[..a]), choices, time, findings, summary, withBlocking)
      invariant summary.totalPackages == |analyses|
    {
      CasesNext(analyses, a);
      var error;
      error, findings, summary, withBlocking, choices :=
        EvaluateAnalysis(s, analyses[a], time, Cases(analyses[..a]), choices, findings, summary, withBlocking);
      if error.Some? {
        CasesListed(analyses, a);
        return Err(error.value), choices;
      }
    }
    assert analyses[..|analyses|] == analyses;
    AllGraded(s, Cases(analyses), choices, time, findings, summary, withBlocking);
    SoFarMeans(s, Cases(analyses), choices, time, findings, summary, withBlocking);
    var status := if summary.blocking > 0 || summary.expired > 0 then BLOCKED else if summary.warning > 0 then WARNING else PASS;
    TalliesOther(summary, findings, |analyses| - |withBlocking|);
    summary := summary.(unblockedPackages := |analyses| - |withBlocking|);
    r := Ok(EvaluationResult(status, s.Mode(), findings, summary));
  }

  lemma TalliesOther(summary: Summary, findings: seq<Finding>, unblocked: int)
    requires Tallies(summary, findings)
    ensures Tallies(summary.(unblockedPackages := unblocked), findings)
  {}

  lemma SoFarMeans(s: Setting, cases: seq<Case>, choices: seq<AckChoice>, time: int,
                   findings: seq<Finding>, summary: Summary, withBlocking: set<string>)
    requires SoFar(s, cases, choices, time, findings, summary, withBlocking)
    ensures Graded(s, cases, choices, time, findings) && Tallies(summary, findings)
    ensures withBlocking == BlockedIDs(s, cases, choices, time)
  {}

  lemma NoCases(analyses: seq<Analysis>)
    ensures Cases(analyses[..0]) == []
  {}

  lemma CasesOfSize(a: Analysis)
    ensures |CasesOf(a)| == |a.violations|
  {}

  lemma CaseAt(a: Analysis, v: nat)
    requires v < |a.violations|
    ensures |CasesOf(a)| == |a.violations| && CasesOf(a)[v] == Case(a, a.violations[v])
  {}

  lemma ClassifyErr(s: Setting, c: Case, choice: AckChoice, time: int)
    ensures Classify(s, c, choice, time).Err? <==> SeverityAt(s, c, time).Err?
  {}

  lemma CasesNext(analyses: seq<Analysis>, a: nat)
    requires a < |analyses|
    ensures Cases(analyses[..a + 1]) == Cases(analyses[..a]) + CasesOf(analyses[a])
  {
    assert analyses[..a + 1][..a] == analyses[..a];
  }

  lemma {:induction false} CasesListed(analyses: seq<Analysis>, a: nat)
    requires a < |analyses|
    ensures forall c :: c in CasesOf(analyses[a]) ==> c in Cases(analyses)
  {
    hide CasesOf;
    var n := |analyses| - 1;
    if a < n {
      CasesListed(analyses[..n], a);
    }
  }

  // ---- Time never relaxes a verdict

  function Level(kind: FindingKind): nat {
    match kind
    case IsIgnored => 0
    case IsAcknowledged => 1
    case IsWarning => 2
    case IsBlocking => 3
    case IsExpired => 3
  }

  function StatusLevel(status: Status): nat {
    match status
    case PASS => 0
    case WARNING => 1
    case BLOCKED => 2
  }

  lemma DeciderLater(rules: seq<SeverityRule>, ctx: Context, later: Context, i: nat, j: nat)
    requires later == ctx.(time := later.time) && ctx.time <= later.time
    requires Decides(rules, ctx, i) && Decides(rules, later, j)
    requires Resolve(rules[j].value, later.time).0 != Blocking
    ensures i == j && Resolve(rules[i].value, ctx.time).0 == Resolve(rules[i].value, later.time).0
  {
    hide Matches;
    forall k ensures 0 <= k < |rules| ==> (Matches(rules[k], ctx) <==> Matches(rules[k], later)) {
      if 0 <= k < |rules| { MatchesAnyTime(rules[k], ctx, later); }
    }
  }

  lemma MatchesAnyTime(r: SeverityRule, ctx: Context, later: Context)
    requires later == ctx.(time := later.time)
    ensures Matches(r, ctx) <==> Matches(r, later)
  {}

  /** Later, a severity is what it was, or blocking. */
  lemma SeverityLater(rules: seq<SeverityRule>, ctx: Context, later: Context)
    requires later == ctx.(time := later.time) && ctx.time <= later.time
    ensures SeverityOf(rules, ctx).Ok? <==> SeverityOf(rules, later).Ok?
    ensures SeverityOf(rules, ctx).Ok? ==>
      SeverityOf(rules, later).value.severity in {SeverityOf(rules, ctx).value.severity, Blocking}
  {
    hide Matches, Decides, Resolve;
    forall r ensures Matches(r, ctx) <==> Matches(r, later) { MatchesAnyTime(r, ctx, later); }
    if !NoneMatches(rules, ctx) {
      var i, j := Decider(rules, ctx), Decider(rules, later);
      DecidesBound(rules, ctx, i);
      DecidesBound(rules, later, j);
      if Resolve(rules[j].value, later.time).0 != Blocking {
        DeciderLater(rules, ctx, later, i, j);
      }
    }
  }

  lemma DecidesBound(rules: seq<SeverityRule>, ctx: Context, i: nat)
    requires Decides(rules, ctx, i)
    ensures i < |rules|
  {}

  /** With the same acknowledgement lookups, evaluating a case later never lowers its level. */
  lemma LevelNeverFalls(s: Setting, c: Case, choice: AckChoice, time: int, later: int)
    requires time <= later
    ensures Classify(s, c, choice, time).Ok? <==> Classify(s, c, choice, later).Ok?
    ensures Classify(s, c, choice, time).Ok? ==>
      Level(Classify(s, c, choice, time).value.kind) <= Level(Classify(s, c, choice, later).value.kind)
  {
    hide SeverityOf, Sort;
    SeverityLater(s.Rules(), ContextOf(s, c, time), ContextOf(s, c, later));
  }

  /** A whole evaluation, repeated later with the same lookups, is at least as severe in every finding and in status. */
  lemma VerdictNeverRelaxes(s: Setting, cases: seq<Case>, choices: seq<AckChoice>, time: int, findings: seq<Finding>,
                            later: int, laterFindings: seq<Finding>)
    requires time <= later
    requires Graded(s, cases, choices, time, findings) && Graded(s, cases, choices, later, laterFindings)
    ensures forall i :: 0 <= i < |findings| ==> Level(findings[i].kind) <= Level(laterFindings[i].kind)
    ensures StatusLevel(StatusOf(findings)) <= StatusLevel(StatusOf(laterFindings))
  {
    hide Classify, ValidChoice;
    forall i | 0 <= i < |findings| ensures Level(findings[i].kind) <= Level(laterFindings[i].kind) {
      LevelNeverFalls(s, cases[i], choices[i], time, later);
    }
    if f :| f in findings && Level(f.kind) >= 2 {
      var i :| 0 <= i < |findings| && findings[i] == f;
      assert laterFindings[i] in laterFindings;
      if Level(f.kind) == 3 { assert laterFindings[i].kind in {IsBlocking, IsExpired}; }
    }
    if g :| g in findings && g.kind in {IsBlocking, IsExpired} {
      var i :| 0 <= i < |findings| && findings[i] == g;
      assert laterFindings[i] in laterFindings && laterFindings[i].kind in {IsBlocking, IsExpired};
    }
  }

  /** An evaluation that can be graded now can be graded at any later time. */
  lemma GradableLater(s: Setting, cases: seq<Case>, choices: seq<AckChoice>, time: int, findings: seq<Finding>, later: int)
    requires time <= later && Graded(s, cases, choices, time, findings)
    ensures exists laterFindings :: Graded(s, cases, choices, later, laterFindings)
  {
    hide Classify, ValidChoice;
    forall i | 0 <= i < |cases| ensures Classify(s, cases[i], choices[i], later).Ok? {
      LevelNeverFalls(s, cases[i], choices[i], time, later);
    }
    var laterFindings := seq(|cases|, i requires 0 <= i < |cases| => Classify(s, cases[i], choices[i], later).value);
    assert Graded(s, cases, choices, later, laterFindings);
  }

  // ---- What the kind of a finding is, said of the severity and the acknowledgements found

  /** The acknowledgement ended before the evaluation; on its last instant it still holds. */
  predicate HasEnded(ack: Acknowledgement, time: int) {
    ack.expires.Some? && ack.expires.value < time
  }

  lemma KindMeans(s: Setting, c: Case, choice: AckChoice, time: int)
    ensures Classify(s, c, choice, time).Ok? <==> SeverityAt(s, c, time).Ok?
    ensures SeverityAt(s, c, time).Ok? ==>
      var severity, f := SeverityAt(s, c, time).value, Classify(s, c, choice, time).value;
      var failure, warning := choice.failure, choice.warning;
      && (f.kind == IsIgnored <==> severity.severity == Ignore)
      && (f.kind == IsExpired <==> severity.severity != Ignore && failure.Some? && HasEnded(failure.value, time))
      && (f.kind == IsAcknowledged <==>
            && severity.severity != Ignore
            && if failure.Some? then !HasEnded(failure.value, time)
               else severity.severity != Blocking && warning.Some? && !HasEnded(warning.value, time))
      && (f.kind == IsBlocking <==> severity.severity == Blocking && failure.None?)
      && (f.kind == IsWarning <==>
            severity.severity !in {Ignore, Blocking} && failure.None? && (warning.Some? ==> HasEnded(warning.value, time)))
  {
    hide SeverityOf, Sort;
  }

  /** A finding names the acknowledgement that covers it, or that has ended; any other carries the note of its severity. */
  lemma FindingNote(s: Setting, c: Case, choice: AckChoice, time: int)
    requires SeverityAt(s, c, time).Ok?
    ensures Classify(s, c, choice, time).Ok?
    ensures var severity, f := SeverityAt(s, c, time).value, Classify(s, c, choice, time).value;
      && f.matchedRule == severity.matchedRule
      && f.note ==
           if severity.severity == Ignore then severity.note
           else if choice.failure.Some? then
             if HasEnded(choice.failure.value, time) then ExpiredBy(choice.failure.value) else AcknowledgedBy(choice.failure.value)
           else if severity.severity == Blocking || choice.warning.None? then severity.note
           else if HasEnded(choice.warning.value, time) then ExpiredBy(choice.warning.value)
           else AcknowledgedBy(choice.warning.value)
  {
    hide SeverityOf, Sort;
  }

  /** An analysis counts as blocked for a blocking severity that no unexpired acknowledgement covers. */
  lemma BlocksMeans(s: Setting, c: Case, choice: AckChoice, time: int)
    ensures Blocks(s, c, choice, time) <==>
      && SeverityAt(s, c, time).Ok? && SeverityAt(s, c, time).value.severity == Blocking
      && (choice.failure.Some? ==> HasEnded(choice.failure.value, time))
  {
    hide SeverityOf;
  }

  lemma StatusMeans(findings: seq<Finding>)
    ensures StatusOf(findings) == BLOCKED <==> exists f :: f in findings && f.kind in {IsBlocking, IsExpired}
    ensures StatusOf(findings) == WARNING <==>
      (forall f :: f in findings ==> f.kind !in {IsBlocking, IsExpired}) && exists f :: f in findings && f.kind == IsWarning
    ensures StatusOf(findings) == PASS <==> forall f :: f in findings ==> f.kind in {IsAcknowledged, IsIgnored}
  {}

  /** Without a policy the default rules decide, nothing is acknowledged, and the mode is active. */
  lemma SettingMeans(s: Setting, c: Case, choice: AckChoice)
    requires ValidChoice(s, c, choice)
    ensures s.policy.None? ==> s.Rules() == s.defaultRules && choice == AckChoice(None, None) && s.Mode() == "active"
    ensures s.policy.Some? ==> s.Rules() == s.policy.value.rules
    ensures s.policy.Some? && s.policy.value.workflowMode in {None, Some("")} ==> s.Mode() == "active"
    ensures s.policy.Some? && s.policy.value.workflowMode !in {None, Some("")} ==> Some(s.Mode()) == s.policy.value.workflowMode
  {}

  // ---- Findings are conserved

  lemma SortedCategories(categories: seq<string>)
    ensures SortedBy(Sort(categories, StrLe), StrLe) && multiset(Sort(categories, StrLe)) == multiset(categories)
  {
    StrLeIsTotalPreorder();
    SortSorts(categories, StrLe);
    SortContents(categories, StrLe);
  }

  /** Findings correspond one to one, and in order, to violations; and every finding is counted once. */
  lemma FindingsConserved(s: Setting, cases: seq<Case>, choices: seq<AckChoice>, time: int, findings: seq<Finding>, summary: Summary)
    requires Graded(s, cases, choices, time, findings) && Tallies(summary, findings)
    ensures summary.blocking + summary.warning + summary.acknowledged + summary.expired + summary.ignored == |cases|
    ensures forall i :: 0 <= i < |cases| ==>
      && findings[i].package == cases[i].analysis.analysisID && findings[i].check == cases[i].violation.checkCode
      && findings[i].rationale == cases[i].violation.rationale && findings[i].evidence == cases[i].violation.evidence
      && findings[i].dependencyPath == cases[i].analysis.dependencyPath
      && findings[i].rootLocation == cases[i].analysis.rootLocation && findings[i].dev == cases[i].analysis.dev
      && SortedBy(findings[i].categories, StrLe)
      && multiset(findings[i].categories) == multiset(CategoriesOf(s, cases[i].violation.checkCode))
  {
    hide SeverityAt, ValidChoice, Sort;
    CountsSum(findings);
    forall i | 0 <= i < |cases| {
      SortedCategories(CategoriesOf(s, cases[i].violation.checkCode));
    }
  }
}
