/** The SARIF report of an evaluation, the verdict drawn from it, and the way back from results to policy keys. */
module Sarif {
  import opened Wrappers
  import opened Text
  import opened Policy
  import opened Evaluation
  import Message

  datatype SarifLevel = ErrorLevel | WarningLevel | NoteLevel | NoneLevel

  /** `names` are the names of the result's logical locations, in order. */
  datatype SarifResult = SarifResult(ruleID: Option<string>, level: Option<SarifLevel>, message: Option<string>, names: seq<Option<string>>)

  type Report = seq<seq<SarifResult>>

  function LevelOf(kind: FindingKind): SarifLevel {
    match kind
    case IsBlocking => ErrorLevel
    case IsWarning => WarningLevel
    case IsExpired => ErrorLevel
    case IsAcknowledged => NoteLevel
    case IsIgnored => NoneLevel
  }

  // ---- Logical names

  function TrimSlashes(s: string): string {
    if s != "" && s[|s| - 1] == '/' then TrimSlashes(s[..|s| - 1]) else s
  }

  function LastElement(s: string): string {
    var parts := Split(s, '/');
    parts[|parts| - 1]
  }

  /** `filepath.Base` of an absolute path. */
  function BaseName(path: string): string {
    var trimmed := TrimSlashes(path);
    if trimmed == "" then "/" else LastElement(trimmed)
  }

  function NormalizeLogicalName(package: string): string {
    if !HasPrefix(package, "source/") then package
    else
      var rest := Before(package[7..], '?');
      if HasPrefix(rest, "/") then "source/" + BaseName(rest) else package
  }

  function EntityKeyForResult(names: seq<Option<string>>): string {
    if names == [] then "root"
    else if names[0].None? then EntityKeyForResult(names[1..])
    else if HasPrefix(names[0].value, "source/") then "root"
    else names[0].value
  }

  /** The policy key of a graded analysis. */
  function EntityKey(package: string): string {
    if HasPrefix(package, "source/") then "root" else package
  }

  /** The first name counts; a result without one belongs to the root. */
  lemma {:induction false} KeyOfFirstName(unnamed: nat, name: string, rest: seq<Option<string>>)
    ensures var none := seq(unnamed, _ => None);
      && EntityKeyForResult(none + [Some(name)] + rest) == EntityKey(name)
      && EntityKeyForResult(none) == "root"
  {
    var none: seq<Option<string>> := seq(unnamed, _ => None);
    if unnamed > 0 {
      KeyOfFirstName(unnamed - 1, name, rest);
      var fewer: seq<Option<string>> := seq(unnamed - 1, _ => None);
      assert none[1..] == fewer;
      assert (none + [Some(name)] + rest)[1..] == fewer + [Some(name)] + rest;
    } else {
      assert none + [Some(name)] + rest == [Some(name)] + rest;
    }
  }

  lemma KeyOfResult(package: string)
    ensures EntityKeyForResult([Some(NormalizeLogicalName(package))]) == EntityKey(package)
  {
    if HasPrefix(package, "source/") {
      assert ("source/" + BaseName(Before(package[7..], '?')))[..7] == "source/";
    }
  }

  lemma NoTrailingSlash(path: string, slashes: string)
    requires path != "" && path[|path| - 1] != '/' && forall c :: c in slashes ==> c == '/'
    ensures TrimSlashes(path + slashes) == path
  {
    var s := path + slashes;
    if slashes == "" {
      assert s == path;
    } else {
      var n := |slashes| - 1;
      assert slashes[n] in slashes && s[|s| - 1] == slashes[n];
      assert s[..|s| - 1] == path + slashes[..n];
      assert forall c :: c in slashes[..n] ==> c in slashes;
      NoTrailingSlash(path, slashes[..n]);
    }
  }

  lemma {:induction false} LastAfterSlash(dir: string, base: string)
    requires '/' !in base
    ensures LastElement(dir + "/" + base) == base
    decreases |dir|
  {
    var i := IndexOf(dir, '/');
    if i == |dir| {
      assert dir[..|dir|] == dir;
      assert dir + "/" + base == dir + ['/'] + base;
      SplitHead(dir, '/', base);
      assert base[..|base|] == base;
      IndexOfIs(base, '/', |base|);
    } else {
      var head, tail := dir[..i], dir[i + 1..];
      LastAfterSlash(tail, base);
      assert dir + "/" + base == head + ['/'] + (tail + "/" + base);
      SplitHead(head, '/', tail + "/" + base);
    }
  }

  /** A local source is shown by the last element of its path; trailing slashes and the query do not count. */
  lemma LocalSourceName(dir: string, base: string, slashes: string, query: string)
    requires '/' !in base && base != "" && '?' !in "/" + dir + base && (query == "" || query[0] == '?')
    requires dir == "" || dir[|dir| - 1] == '/'
    requires forall c :: c in slashes ==> c == '/'
    ensures NormalizeLogicalName("source/" + "/" + dir + base + slashes + query) == "source/" + base
  {
    hide TrimSlashes, LastElement;
    var path := "/" + dir + base;
    var rest := path + slashes;
    var package := "source/" + "/" + dir + base + slashes + query;
    assert package == "source/" + (rest + query) && package[7..] == rest + query && package[..7] == "source/";
    assert (rest + query)[..|rest|] == rest && (query != "" ==> (rest + query)[|rest|] == '?');
    assert '?' !in rest;
    IndexOfIs(rest + query, '?', |rest|);
    assert path[|path| - 1] == base[|base| - 1] && base[|base| - 1] in base;
    NoTrailingSlash(path, slashes);
    var before := if dir == "" then "" else "/" + dir[..|dir| - 1];
    assert path == before + "/" + base;
    LastAfterSlash(before, base);
    assert rest[0] == '/';
  }

  /** Any other name, a remote source or a package, is shown as it is. */
  lemma OtherNamesStay(package: string)
    requires !HasPrefix(package, "source//")
    ensures NormalizeLogicalName(package) == package
  {
    if HasPrefix(package, "source/") {
      var rest := Before(package[7..], '?');
      if rest != "" { assert package[7] == rest[0] && package[..8] == "source/" + [package[7]]; }
    }
  }

  // ---- Building the report

  function ResultFor(f: Finding, render: Note -> string): SarifResult {
    SarifResult(Some(f.check), Some(LevelOf(f.kind)), Some(Message.MessageText(Message.Parts(f.rationale, f.evidence, render(f.note)))),
                [Some(NormalizeLogicalName(f.package))])
  }

  const AUDIT_ERROR := "AUDIT_ERROR"

  /** A package that could not be scored. */
  datatype PackageError = PackageError(key: string, message: string)

  function FailureResult(e: PackageError): SarifResult {
    SarifResult(Some(AUDIT_ERROR), Some(ErrorLevel), Some(e.message), [Some(e.key)])
  }

  /** The graded run, then one run for every package that could not be scored. */
  method AssembleReport(findings: seq<Finding>, failures: seq<PackageError>, render: Note -> string) returns (report: Report)
    ensures report == ReportOf(findings, failures, render)
  {
    var graded: seq<SarifResult> := [];
    for i := 0 to |findings|
      invariant graded == GradedRun(findings[..i], render)
    {
      graded := graded + [ResultFor(findings[i], render)];
    }
    assert findings[..|findings|] == findings;
    report := [graded];
    for i := 0 to |failures|
      invariant report == ReportOf(findings, failures[..i], render)
    {
      report := report + [[FailureResult(failures[i])]];
    }
    assert failures[..|failures|] == failures;
  }

  ghost function GradedRun(findings: seq<Finding>, render: Note -> string): seq<SarifResult> {
    seq(|findings|, i requires 0 <= i < |findings| => ResultFor(findings[i], render))
  }

  ghost function ReportOf(findings: seq<Finding>, failures: seq<PackageError>, render: Note -> string): Report {
    [GradedRun(findings, render)] + seq(|failures|, i requires 0 <= i < |failures| => [FailureResult(failures[i])])
  }

  // ---- The verdict

  ghost function ErrorsIn(results: seq<SarifResult>): nat {
    if results == [] then 0
    else ErrorsIn(results[..|results| - 1]) + if results[|results| - 1].level == Some(ErrorLevel) then 1 else 0
  }

  ghost function Errors(report: Report): nat {
    if report == [] then 0 else Errors(report[..|report| - 1]) + ErrorsIn(report[|report| - 1])
  }

  method CountErrorLevel(report: Report) returns (n: nat)
    ensures n == Errors(report)
  {
    n := 0;
    for i := 0 to |report|
      invariant n == Errors(report[..i])
    {
      var results := report[i];
      ghost var before := n;
      for j := 0 to |results|
        invariant n == before + ErrorsIn(results[..j])
      {
        assert results[..j + 1][..j] == results[..j];
        if results[j].level == Some(ErrorLevel) {
          n := n + 1;
        }
      }
      assert results[..|results|] == results;
      assert report[..i + 1][..i] == report[..i];
    }
    assert report[..|report|] == report;
  }

  predicate FailsOnBlocking(mode: string) {
    mode == "active"
  }

  /** Whether the run exits non-zero. */
  method RunVerdict(mode: string, report: Report) returns (fails: bool)
    ensures fails <==> Errors(report) > 0 && mode == "active"
  {
    var blocking := CountErrorLevel(report);
    if blocking == 0 {
      return false;
    }
    return FailsOnBlocking(mode);
  }

  lemma {:induction false} GradedErrors(findings: seq<Finding>, render: Note -> string)
    ensures ErrorsIn(GradedRun(findings, render)) == Count(findings, IsBlocking) + Count(findings, IsExpired)
  {
    if findings != [] {
      var n := |findings| - 1;
      GradedErrors(findings[..n], render);
      assert GradedRun(findings, render)[..n] == GradedRun(findings[..n], render);
    }
  }

  ghost function AtLevel(results: seq<SarifResult>, level: SarifLevel): nat {
    if results == [] then 0
    else AtLevel(results[..|results| - 1], level) + if results[|results| - 1].level == Some(level) then 1 else 0
  }

  /** The levels of the graded run count the findings by kind. */
  lemma {:induction false} GradedLevels(findings: seq<Finding>, render: Note -> string)
    ensures var run := GradedRun(findings, render);
      && AtLevel(run, ErrorLevel) == Count(findings, IsBlocking) + Count(findings, IsExpired)
      && AtLevel(run, WarningLevel) == Count(findings, IsWarning)
      && AtLevel(run, NoteLevel) == Count(findings, IsAcknowledged)
      && AtLevel(run, NoneLevel) == Count(findings, IsIgnored)
  {
    hide Message.MessageText, NormalizeLogicalName;
    if findings != [] {
      var n := |findings| - 1;
      GradedLevels(findings[..n], render);
      assert GradedRun(findings, render)[..n] == GradedRun(findings[..n], render);
    }
  }

  lemma {:induction false} ReportErrors(findings: seq<Finding>, failures: seq<PackageError>, render: Note -> string)
    ensures Errors(ReportOf(findings, failures, render)) == Count(findings, IsBlocking) + Count(findings, IsExpired) + |failures|
    decreases |failures|
  {
    hide Message.MessageText, NormalizeLogicalName;
    var report := ReportOf(findings, failures, render);
    if failures == [] {
      assert report == [GradedRun(findings, render)];
      assert report[..0] == [];
      GradedErrors(findings, render);
    } else {
      var n := |failures| - 1;
      ReportErrors(findings, failures[..n], render);
      assert report[..n + 1] == ReportOf(findings, failures[..n], render);
      var last := report[n + 1];
      assert last == [FailureResult(failures[n])];
      assert |last| == 1 && last[..0] == [] && ErrorsIn(last[..0]) == 0;
      assert ErrorsIn(last) == 1;
      assert Errors(report) == Errors(report[..n + 1]) + ErrorsIn(last);
    }
  }

  /**
   * The report's error-level results are the blocking and expired findings and the packages that could not
   * be scored; so a run fails exactly in active mode with a blocked status or such a package.
   */
  lemma FailsExactlyWhenBlocked(s: Setting, cases: seq<Case>, choices: seq<AckChoice>, time: int, result: EvaluationResult,
                                failures: seq<PackageError>, render: Note -> string, mode: string)
    requires Graded(s, cases, choices, time, result.findings)
    requires Tallies(result.summary, result.findings) && result.status == StatusOf(result.findings)
    ensures var report := ReportOf(result.findings, failures, render);
      && Errors(report) == result.summary.blocking + result.summary.expired + |failures|
      && (Errors(report) > 0 && FailsOnBlocking(mode) <==> mode == "active" && (result.status == BLOCKED || failures != []))
  {
    hide Graded;
    ReportErrors(result.findings, failures, render);
    CountZero(result.findings, IsBlocking);
    CountZero(result.findings, IsExpired);
  }
}
