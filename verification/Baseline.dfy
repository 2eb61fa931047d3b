/** Turning the findings of a report into acknowledgements, and what evaluating again then gives. */
module Baseline {
  import opened Wrappers
  import opened Sequences
  import opened Ordering
  import opened Text
  import opened Pattern
  import opened Policy
  import opened Evaluation
  import opened Sarif
  import PackageKey
  import PolicyLoader

  datatype InitFinding = InitFinding(entityKey: string, checkCode: string, message: string)

  predicate FindingLe(a: InitFinding, b: InitFinding) {
    if a.entityKey != b.entityKey then StrLe(a.entityKey, b.entityKey) else StrLe(a.checkCode, b.checkCode)
  }

  predicate IsTriaged(res: SarifResult, level: SarifLevel) {
    res.level == Some(level) && res.ruleID.Some? && res.ruleID.value != ""
  }

  function FindingFor(res: SarifResult): InitFinding
    requires res.ruleID.Some?
  {
    InitFinding(EntityKeyForResult(res.names), res.ruleID.value, if res.message.Some? then res.message.value else "")
  }

  ghost function CollectedIn(results: seq<SarifResult>, level: SarifLevel): seq<InitFinding> {
    if results == [] then []
    else
      var last := results[|results| - 1];
      CollectedIn(results[..|results| - 1], level) + if IsTriaged(last, level) then [FindingFor(last)] else []
  }

  ghost function Collected(report: Report, level: SarifLevel): seq<InitFinding> {
    if report == [] then [] else Collected(report[..|report| - 1], level) + CollectedIn(report[|report| - 1], level)
  }

  method CollectInitFindings(report: Report, level: SarifLevel) returns (out: seq<InitFinding>)
    ensures out == Sort(Collected(report, level), FindingLe)
  {
    out := [];
    for i := 0 to |report|
      invariant out == Collected(report[..i], level)
    {
      var results := report[i];
      ghost var before := out;
      for j := 0 to |results|
        invariant out == before + CollectedIn(results[..j], level)
      {
        assert results[..j + 1][..j] == results[..j];
        if IsTriaged(results[j], level) {
          out := out + [FindingFor(results[j])];
        }
      }
      assert results[..|results|] == results;
      assert report[..i + 1][..i] == report[..i];
    }
    assert report[..|report|] == report;
    out := Sort(out, FindingLe);
  }

  lemma FindingLeIsTotalPreorder()
    ensures TotalPreorder(FindingLe)
  {
    forall a, b ensures FindingLe(a, b) || FindingLe(b, a) {
      StrLeTotal(a.entityKey, b.entityKey);
      StrLeTotal(a.checkCode, b.checkCode);
    }
    forall a, b, c | FindingLe(a, b) && FindingLe(b, c) ensures FindingLe(a, c) { FindingLeTransitive(a, b, c); }
  }

  lemma FindingLeTransitive(a: InitFinding, b: InitFinding, c: InitFinding)
    requires FindingLe(a, b) && FindingLe(b, c)
    ensures FindingLe(a, c)
  {
    hide StrLe;
    if a.entityKey != b.entityKey && b.entityKey != c.entityKey {
      StrLeTransitive(a.entityKey, b.entityKey, c.entityKey);
      if a.entityKey == c.entityKey { StrLeAntisymmetric(a.entityKey, b.entityKey); }
    }
    if a.entityKey == b.entityKey == c.entityKey { StrLeTransitive(a.checkCode, b.checkCode, c.checkCode); }
  }

  /** Findings are listed by entity, and those of one entity by check; none is lost or added. */
  lemma CollectedInOrder(report: Report, level: SarifLevel, i: nat, j: nat)
    requires i < j < |Sort(Collected(report, level), FindingLe)|
    ensures var out := Sort(Collected(report, level), FindingLe);
      && StrLe(out[i].entityKey, out[j].entityKey)
      && (out[i].entityKey == out[j].entityKey ==> StrLe(out[i].checkCode, out[j].checkCode))
      && multiset(out) == multiset(Collected(report, level))
  {
    hide Collected;
    var found := Collected(report, level);
    FindingLeIsTotalPreorder();
    SortSorts(found, FindingLe);
    SortContents(found, FindingLe);
    hide Sort;
    var out := Sort(found, FindingLe);
    assert FindingLe(out[i], out[j]);
    StrLeTotal(out[i].entityKey, out[i].entityKey);
  }

  // ---- From findings to a table

  ghost function CodesFor(findings: seq<InitFinding>, key: string): set<string> {
    set f | f in findings && f.entityKey == key :: f.checkCode
  }

  ghost predicate Groups(findings: seq<InitFinding>, grouped: map<string, set<string>>) {
    && (forall f :: f in findings ==> f.entityKey in grouped)
    && (forall k :: k in grouped ==> grouped[k] == CodesFor(findings, k) && grouped[k] != {})
  }

  method Group(findings: seq<InitFinding>) returns (grouped: map<string, set<string>>)
    ensures Groups(findings, grouped)
  {
    grouped := map[];
    for i := 0 to |findings|
      invariant Groups(findings[..i], grouped)
    {
      var f := findings[i];
      assert findings[..i + 1] == findings[..i] + [f];
      ghost var before := grouped;
      if f.entityKey !in grouped {
        grouped := grouped[f.entityKey := {}];
      }
      assert f.entityKey !in before ==> CodesFor(findings[..i], f.entityKey) == {};
      grouped := grouped[f.entityKey := grouped[f.entityKey] + {f.checkCode}];
      forall k | k in grouped ensures grouped[k] == CodesFor(findings[..i + 1], k) && grouped[k] != {} {
        assert CodesFor(findings[..i + 1], k) == CodesFor(findings[..i], k) + if k == f.entityKey then {f.checkCode} else {};
      }
    }
    assert findings[..|findings|] == findings;
  }

  const INIT_REASON := "Acknowledged during risk-guard init"

  ghost predicate IsBaseline(findings: seq<InitFinding>, table: AckTable) {
    && (forall f :: f in findings ==> f.entityKey in table)
    && (forall k :: k in table ==>
          && ListsSorted(table[k].checks, CodesFor(findings, k)) && CodesFor(findings, k) != {}
          && table[k].reason == INIT_REASON && table[k].expires.None? && table[k].approvedBy == "")
  }

  method BuildExpectedFailures(findings: seq<InitFinding>) returns (table: AckTable)
    ensures IsBaseline(findings, table)
  {
    var grouped := Group(findings);
    table := map[];
    var todo := grouped.Keys;
    while todo != {}
      invariant todo <= grouped.Keys && table.Keys == grouped.Keys - todo
      invariant forall k :: k in table ==>
        && ListsSorted(table[k].checks, grouped[k])
        && table[k].reason == INIT_REASON && table[k].expires.None? && table[k].approvedBy == ""
    {
      var key :| key in todo;
      var codes := SortedStrings(grouped[key]);
      table := table[key := Acknowledgement(codes, INIT_REASON, None, "")];
      todo := todo - {key};
    }
  }

  const NO_ACK := Acknowledgement([], "", None, "")

  function EntryOf(table: AckTable, key: string): Acknowledgement {
    if key in table then table[key] else NO_ACK
  }

  ghost predicate MergesEntry(before: Acknowledgement, codes: set<string>, reason: string, after: Acknowledgement) {
    && ListsSorted(after.checks, Elements(before.checks) + codes)
    && after.reason == (if before.reason == "" then reason else before.reason)
    && after.expires == before.expires && after.approvedBy == before.approvedBy
  }

  /** Adds picked codes to a table; what was there before keeps its reason, expiry and approver. */
  method MergeExpectedFailures(existing: AckTable, picked: map<string, set<string>>, reason: string) returns (table: AckTable)
    ensures table.Keys == existing.Keys + picked.Keys
    ensures forall k :: k in existing && k !in picked ==> table[k] == existing[k]
    ensures forall k :: k in picked ==> MergesEntry(EntryOf(existing, k), picked[k], reason, table[k])
  {
    table := existing;
    var todo := picked.Keys;
    while todo != {}
      invariant todo <= picked.Keys && table.Keys == existing.Keys + (picked.Keys - todo)
      invariant forall k :: k in existing && (k !in picked || k in todo) ==> table[k] == existing[k]
      invariant forall k :: k in picked && k !in todo ==> MergesEntry(EntryOf(existing, k), picked[k], reason, table[k])
    {
      var key :| key in todo;
      var entry := EntryOf(table, key);
      var all := (set c | c in entry.checks) + picked[key];
      assert all == Elements(entry.checks) + picked[key];
      var codes := SortedStrings(all);
      table := table[key := entry.(checks := codes, reason := if entry.reason == "" then reason else entry.reason)];
      todo := todo - {key};
    }
  }

  // ---- Evaluating again

  ghost predicate Accepts(table: AckTable, key: string, code: string) {
    key in table && code in table[key].checks
  }

  ghost predicate Unlapsed(table: AckTable, time: int) {
    forall k :: k in table ==> !Lapsed(table[k], time)
  }

  /** Everything `before` accepts, `after` accepts under the same key. */
  ghost predicate KeepsEntries(before: AckTable, after: AckTable) {
    forall k, c :: k in before && c in before[k].checks ==> Accepts(after, k, c)
  }

  /** A finding of this case can be written down as an acknowledgement that covers it. */
  predicate Baselinable(c: Case) {
    c.violation.checkCode != "" && (EntityKey(c.analysis.analysisID) == "root" ==> c.analysis.dependencyPath == [])
  }

  lemma AcceptedIsCovered(table: AckTable, time: int, id: string, code: string, depth: nat, ack: Option<Acknowledgement>)
    requires Unlapsed(table, time) && Accepts(table, EntityKey(id), code)
    requires EntityKey(id) == "root" ==> depth == 0
    requires IsAck(table, id, code, depth, ack)
    ensures ack.Some? && !Lapsed(ack.value, time)
  {
    var key := EntityKey(id);
    MatchesItself(code);
    assert ChecksContain(table[key].checks, code);
    if key != "root" {
      MatchesItself(id);
      if '?' !in id { IndexOfIs(id, '?', |id|); }
      assert Covers(table, id, id, code);
    }
  }

  lemma KeptIsCovered(before: AckTable, after: AckTable, time: int, id: string, code: string, depth: nat,
                      previous: Option<Acknowledgement>, ack: Option<Acknowledgement>)
    requires Unlapsed(after, time) && KeepsEntries(before, after)
    requires IsAck(before, id, code, depth, previous) && previous.Some?
    requires IsAck(after, id, code, depth, ack)
    ensures ack.Some? && !Lapsed(ack.value, time)
  {
    hide MatchesPattern;
    if p :| Covers(before, p, id, code) {
      var c :| c in before[p].checks && MatchesPattern(c, code);
      assert Accepts(after, p, c);
      assert Covers(after, p, id, code);
    } else {
      var c :| c in before["root"].checks && MatchesPattern(c, code);
      assert Accepts(after, "root", c);
    }
  }

  ghost predicate Fails(f: Finding) {
    f.kind in {IsBlocking, IsExpired}
  }

  ghost function Rebased(s: Setting, table: AckTable): Setting
    requires s.policy.Some?
  {
    s.(policy := Some(s.policy.value.(expectedFailures := table)))
  }

  lemma CaseCloses(s: Setting, table: AckTable, c: Case, first: AckChoice, choice: AckChoice, time: int, f: Finding, g: Finding)
    requires s.policy.Some? && Unlapsed(table, time) && KeepsEntries(s.Failures(), table)
    requires ValidChoice(s, c, first) && Classify(s, c, first, time) == Ok(f)
    requires ValidChoice(Rebased(s, table), c, choice) && Classify(Rebased(s, table), c, choice, time) == Ok(g)
    requires Fails(f) ==> Baselinable(c) && Accepts(table, EntityKey(c.analysis.analysisID), c.violation.checkCode)
    ensures !Fails(g)
  {
    hide IsAck, SeverityOf, KeepsEntries, Unlapsed, Accepts, Sort;
    var id, code, depth := c.analysis.analysisID, c.violation.checkCode, |c.analysis.dependencyPath|;
    assert SeverityAt(s, c, time) == SeverityAt(Rebased(s, table), c, time);
    if choice.failure.Some? { FoundUnlapsed(table, time, id, code, depth, choice.failure); }
    if Fails(f) {
      AcceptedIsCovered(table, time, id, code, depth, choice.failure);
    } else if first.failure.Some? {
      KeptIsCovered(s.Failures(), table, time, id, code, depth, first.failure, choice.failure);
    }
  }

  lemma FoundUnlapsed(table: AckTable, time: int, id: string, code: string, depth: nat, ack: Option<Acknowledgement>)
    requires Unlapsed(table, time) && IsAck(table, id, code, depth, ack) && ack.Some?
    ensures !Lapsed(ack.value, time)
  {}

  /**
   * If a table of unexpired acknowledgements keeps what was accepted before and accepts every failing
   * finding, evaluating again at the same time leaves nothing blocking and nothing expired.
   */
  lemma BaselineCloses(s: Setting, table: AckTable, cases: seq<Case>, time: int,
                       first: seq<AckChoice>, findings: seq<Finding>, choices: seq<AckChoice>, again: seq<Finding>)
    requires s.policy.Some? && Unlapsed(table, time) && KeepsEntries(s.Failures(), table)
    requires Graded(s, cases, first, time, findings) && Graded(Rebased(s, table), cases, choices, time, again)
    requires forall i :: 0 <= i < |cases| && Fails(findings[i]) ==>
      Baselinable(cases[i]) && Accepts(table, EntityKey(cases[i].analysis.analysisID), cases[i].violation.checkCode)
    ensures forall f :: f in again ==> !Fails(f)
    ensures StatusOf(again) != BLOCKED
  {
    hide Classify, ValidChoice, Fails, Accepts, Baselinable, KeepsEntries, Unlapsed;
    forall f | f in again ensures !Fails(f) {
      var i :| 0 <= i < |again| && again[i] == f;
      CaseCloses(s, table, cases[i], first[i], choices[i], time, findings[i], again[i]);
    }
    assert StatusOf(again) != BLOCKED by { NoFailsNotBlocked(again); }
  }

  lemma NoFailsNotBlocked(findings: seq<Finding>)
    requires forall f :: f in findings ==> !Fails(f)
    ensures StatusOf(findings) != BLOCKED
  {
    assert forall f :: f in findings ==> Fails(f) || f.kind !in {IsBlocking, IsExpired};
  }

  // ---- What is collected from a report

  lemma {:induction false} CollectedInMember(results: seq<SarifResult>, level: SarifLevel, i: nat)
    requires i < |results| && IsTriaged(results[i], level)
    ensures FindingFor(results[i]) in CollectedIn(results, level)
  {
    var n := |results| - 1;
    if i < n {
      CollectedInMember(results[..n], level, i);
    }
  }

  lemma {:induction false} CollectedInOnly(results: seq<SarifResult>, level: SarifLevel, f: InitFinding)
    requires f in CollectedIn(results, level)
    ensures exists i :: 0 <= i < |results| && IsTriaged(results[i], level) && f == FindingFor(results[i])
  {
    var n := |results| - 1;
    if f in CollectedIn(results[..n], level) {
      CollectedInOnly(results[..n], level, f);
      var i :| 0 <= i < n && IsTriaged(results[..n][i], level) && f == FindingFor(results[..n][i]);
      assert results[i] == results[..n][i];
    }
  }

  lemma {:induction false} CollectedMember(report: Report, level: SarifLevel, r: nat, f: InitFinding)
    requires r < |report| && f in CollectedIn(report[r], level)
    ensures f in Collected(report, level)
  {
    var n := |report| - 1;
    if r < n {
      CollectedMember(report[..n], level, r, f);
    }
  }

  /** Every failing finding with a check code is accepted by the table built from the report. */
  lemma BaselineAccepts(findings: seq<Finding>, failures: seq<PackageError>, render: Note -> string, table: AckTable, i: nat)
    requires IsBaseline(Sort(Collected(ReportOf(findings, failures, render), ErrorLevel), FindingLe), table)
    requires i < |findings| && Fails(findings[i]) && findings[i].check != ""
    ensures Accepts(table, EntityKey(findings[i].package), findings[i].check)
  {
    var report := ReportOf(findings, failures, render);
    var collected := Collected(report, ErrorLevel);
    var sorted := Sort(collected, FindingLe);
    KeyOfResult(findings[i].package);
    var res := report[0][i];
    assert res == ResultFor(findings[i], render);
    hide Sort, CollectedIn, Collected, NormalizeLogicalName, FindingLe, Message.MessageText;
    CollectedInMember(report[0], ErrorLevel, i);
    CollectedMember(report, ErrorLevel, 0, FindingFor(res));
    SortContents(collected, FindingLe);
    MultisetMembers(sorted, collected);
    var f := FindingFor(res);
    assert f in sorted && f.entityKey == EntityKey(findings[i].package) && f.checkCode == findings[i].check;
    ListedMember(table[f.entityKey].checks, CodesFor(sorted, f.entityKey), f.checkCode);
  }

  /**
   * The loop closes: from a policy without acknowledgements, installing the table built from the report and
   * evaluating again at the same time leaves no failing finding, and the new report's errors are exactly the
   * packages that could not be scored.
   */
  lemma BaseliningClosesTheLoop(s: Setting, cases: seq<Case>, time: int, first: seq<AckChoice>, findings: seq<Finding>,
                                failures: seq<PackageError>, render: Note -> string, table: AckTable,
                                choices: seq<AckChoice>, again: seq<Finding>)
    requires s.policy.Some? && s.Failures() == map[]
    requires Graded(s, cases, first, time, findings)
    requires forall c :: c in cases ==> Baselinable(c)
    requires IsBaseline(Sort(Collected(ReportOf(findings, failures, render), ErrorLevel), FindingLe), table)
    requires Graded(Rebased(s, table), cases, choices, time, again)
    ensures forall f :: f in again ==> !Fails(f)
    ensures StatusOf(again) != BLOCKED
    ensures Errors(ReportOf(again, failures, render)) == |failures|
  {
    assert Unlapsed(table, time) && KeepsEntries(s.Failures(), table);
    GradedPackages(s, cases, first, time, findings);
    forall i | 0 <= i < |cases| && Fails(findings[i])
      ensures Baselinable(cases[i]) && Accepts(table, EntityKey(cases[i].analysis.analysisID), cases[i].violation.checkCode)
    {
      assert cases[i] in cases;
      BaselineAccepts(findings, failures, render, table, i);
    }
    hide Graded, Fails, Sort, Collected, CollectedIn, IsBaseline, Baselinable, Accepts;
    BaselineCloses(s, table, cases, time, first, findings, choices, again);
    NoFailsNoErrors(again, failures, render);
  }

  lemma GradedPackages(s: Setting, cases: seq<Case>, choices: seq<AckChoice>, time: int, findings: seq<Finding>)
    requires Graded(s, cases, choices, time, findings)
    ensures |findings| == |cases|
    ensures forall i :: 0 <= i < |cases| ==>
      findings[i].package == cases[i].analysis.analysisID && findings[i].check == cases[i].violation.checkCode
  {
    hide SeverityAt, ValidChoice, Sort;
  }

  lemma NoFailsNoErrors(findings: seq<Finding>, failures: seq<PackageError>, render: Note -> string)
    requires forall f :: f in findings ==> !Fails(f)
    ensures Errors(ReportOf(findings, failures, render)) == |failures|
  {
    ReportErrors(findings, failures, render);
    CountZero(findings, IsBlocking);
    CountZero(findings, IsExpired);
    assert forall f :: f in findings ==> Fails(f) || f.kind !in {IsBlocking, IsExpired};
  }

  // ---- The table survives the policy file

  /** An identifier of a source analysis, or one of a package as the package constructor builds them. */
  ghost predicate IsAnalysisId(id: string) {
    || HasPrefix(id, "source/")
    || exists e, n, v, h :: PackageKey.Plain(e, n) && id == PackageKey.Identifier(e, n, v, h)
  }

  lemma IdentifierIsValidKey(ecosystem: string, name: string, version: PackageKey.Bytes, hash: string)
    requires PackageKey.Plain(ecosystem, name)
    ensures PolicyLoader.ValidAckKey(PackageKey.Identifier(ecosystem, name, version, hash))
  {
    hide PackageKey.QueryEscape;
    var path, query := "package/" + ecosystem + "/" + name, PackageKey.Query(version, hash);
    var key := path + query;
    PackageKey.PathRead(ecosystem, name);
    assert query != "" ==> query[0] == '?';
    assert key[..|path|] == path && (query != "" ==> key[|path|] == '?');
    IndexOfIs(key, '?', |path|);
    assert StripQuery(key) == path;
    assert path == "package" + ['/'] + (ecosystem + ['/'] + name);
    SplitHead("package", '/', ecosystem + ['/'] + name);
    SplitHead(ecosystem, '/', name);
    assert |Split(path, '/')| == 2 + |Split(name, '/')|;
    assert key[..8] == "package/";
  }

  lemma EntityKeyIsValid(id: string)
    requires IsAnalysisId(id)
    ensures PolicyLoader.ValidAckKey(EntityKey(id))
  {
    hide PackageKey.Identifier;
    if !HasPrefix(id, "source/") {
      var e, n, v, h :| PackageKey.Plain(e, n) && id == PackageKey.Identifier(e, n, v, h);
      IdentifierIsValidKey(e, n, v, h);
    }
  }

  /** Written to the policy file, a baseline compiles: the loader accepts every key, and every entry lists a check. */
  lemma BaselineCompiles(findings: seq<Finding>, failures: seq<PackageError>, render: Note -> string, table: AckTable)
    requires IsBaseline(Sort(Collected(ReportOf(findings, failures, render), ErrorLevel), FindingLe), table)
    requires forall f :: f in findings ==> IsAnalysisId(f.package)
    requires forall e :: e in failures ==> IsAnalysisId(e.key)
    ensures PolicyLoader.ValidTable(table)
  {
    var collected := Collected(ReportOf(findings, failures, render), ErrorLevel);
    var sorted := Sort(collected, FindingLe);
    hide Sort, Collected, ReportOf, FindingLe, IsAnalysisId, EntityKey, PolicyLoader.ValidAckKey;
    SortContents(collected, FindingLe);
    MultisetMembers(sorted, collected);
    forall k | k in table ensures PolicyLoader.ValidAckKey(k) && table[k].checks != [] {
      var x :| x in CodesFor(sorted, k);
      ListedMember(table[k].checks, CodesFor(sorted, k), x);
      var f :| f in sorted && f.entityKey == k;
      CollectedOnly(findings, failures, render, f);
      if j :| 0 <= j < |findings| && k == EntityKey(findings[j].package) {
        assert findings[j] in findings;
        EntityKeyIsValid(findings[j].package);
      } else {
        var e :| e in failures && k == EntityKey(e.key);
        EntityKeyIsValid(e.key);
      }
    }
  }

  // ---- Adding to an existing table

  /** A merged table keeps what was accepted, accepts what was picked, and has lapsed entries only if it had them before. */
  lemma MergedTable(existing: AckTable, picked: map<string, set<string>>, reason: string, table: AckTable, time: int)
    requires table.Keys == existing.Keys + picked.Keys
    requires forall k :: k in existing && k !in picked ==> table[k] == existing[k]
    requires forall k :: k in picked ==> MergesEntry(EntryOf(existing, k), picked[k], reason, table[k])
    ensures KeepsEntries(existing, table)
    ensures forall k, c :: k in picked && c in picked[k] ==> Accepts(table, k, c)
    ensures Unlapsed(table, time) <==> Unlapsed(existing, time)
  {
    forall k, c | k in existing && c in existing[k].checks ensures Accepts(table, k, c) {
      if k in picked {
        ListedMember(table[k].checks, Elements(existing[k].checks) + picked[k], c);
      }
    }
    forall k, c | k in picked && c in picked[k] ensures Accepts(table, k, c) {
      ListedMember(table[k].checks, Elements(EntryOf(existing, k).checks) + picked[k], c);
    }
    forall k | k in table ensures Lapsed(table[k], time) <==> k in existing && Lapsed(existing[k], time) {}
    forall k | k in existing ensures Lapsed(existing[k], time) ==> Lapsed(table[k], time) {}
  }

  // ---- Exactly which findings a baseline clears

  /** Where a collected finding comes from. */
  ghost predicate ComesFrom(findings: seq<Finding>, failures: seq<PackageError>, f: InitFinding) {
    || (exists j :: 0 <= j < |findings| && f.entityKey == EntityKey(findings[j].package) && f.checkCode == findings[j].check)
    || (exists e :: e in failures && f.entityKey == EntityKey(e.key) && f.checkCode == AUDIT_ERROR)
  }

  lemma CollectedFromGraded(findings: seq<Finding>, render: Note -> string, f: InitFinding)
    requires f in CollectedIn(GradedRun(findings, render), ErrorLevel)
    ensures f.checkCode != "" && ComesFrom(findings, [], f)
  {
    hide Message.MessageText, NormalizeLogicalName, EntityKeyForResult;
    CollectedInOnly(GradedRun(findings, render), ErrorLevel, f);
    var run := GradedRun(findings, render);
    var j :| 0 <= j < |run| && IsTriaged(run[j], ErrorLevel) && f == FindingFor(run[j]);
    KeyOfResult(findings[j].package);
  }

  lemma {:induction false} CollectedOnly(findings: seq<Finding>, failures: seq<PackageError>, render: Note -> string, f: InitFinding)
    requires f in Collected(ReportOf(findings, failures, render), ErrorLevel)
    ensures f.checkCode != "" && ComesFrom(findings, failures, f)
    decreases |failures|
  {
    hide CollectedIn, GradedRun;
    var report := ReportOf(findings, failures, render);
    if failures == [] {
      assert report[..0] == [] && report[0] == GradedRun(findings, render);
      CollectedFromGraded(findings, render, f);
    } else {
      var n := |failures| - 1;
      assert report[..n + 1] == ReportOf(findings, failures[..n], render);
      if f in Collected(report[..n + 1], ErrorLevel) {
        CollectedOnly(findings, failures[..n], render, f);
        assert forall e :: e in failures[..n] ==> e in failures;
      } else {
        assert report[n + 1] == [FailureResult(failures[n])];
        CollectedInOnly(report[n + 1], ErrorLevel, f);
        assert f == FindingFor(FailureResult(failures[n]));
        KeyOfName(failures[n].key);
        assert failures[n] in failures;
      }
    }
  }

  lemma KeyOfName(name: string)
    ensures EntityKeyForResult([Some(name)]) == EntityKey(name)
  {}

  ghost predicate WildcardFree(findings: seq<Finding>, failures: seq<PackageError>) {
    && (forall f :: f in findings ==> '*' !in f.package && '*' !in f.check)
    && (forall e :: e in failures ==> '*' !in e.key)
  }

  /** Without wildcards, a baseline covers no case it cannot write down. */
  lemma UnbaselinableUncovered(findings: seq<Finding>, failures: seq<PackageError>, render: Note -> string, table: AckTable,
                               c: Case, ack: Option<Acknowledgement>)
    requires WildcardFree(findings, failures) && !Baselinable(c)
    requires IsBaseline(Sort(Collected(ReportOf(findings, failures, render), ErrorLevel), FindingLe), table)
    requires IsAck(table, c.analysis.analysisID, c.violation.checkCode, |c.analysis.dependencyPath|, ack)
    ensures ack.None?
  {
    var id, code := c.analysis.analysisID, c.violation.checkCode;
    var sorted := Sort(Collected(ReportOf(findings, failures, render), ErrorLevel), FindingLe);
    hide Sort, Collected, ReportOf, FindingLe, StripQuery, CodesFor;
    forall k, x | k in table && x in table[k].checks
      ensures x != "" && '*' !in x && '*' !in k && (k == "root" || !HasPrefix(k, "source/"))
    {
      BaselineEntry(findings, failures, render, table, k, x);
    }
    if code == "" {
      forall k | k in table ensures !ChecksContain(table[k].checks, code) {}
    } else {
      assert EntityKey(id) == "root" && c.analysis.dependencyPath != [];
      forall k ensures !Covers(table, k, id, code) {
        if Covers(table, k, id, code) {
          var x :| x in table[k].checks && MatchesPattern(x, code);
          StripQueryOfSource(id);
        }
      }
    }
  }

  lemma StripQueryOfSource(id: string)
    requires HasPrefix(id, "source/") || id == "root"
    ensures if id == "root" then StripQuery(id) == "root" else HasPrefix(StripQuery(id), "source/")
  {
    var i := IndexOf(id, '?');
    if HasPrefix(id, "source/") {
      assert forall k :: 0 <= k < 7 ==> id[k] == "source/"[k];
    } else {
      IndexOfIs(id, '?', |id|);
    }
  }

  lemma BaselineEntry(findings: seq<Finding>, failures: seq<PackageError>, render: Note -> string, table: AckTable, k: string, x: string)
    requires WildcardFree(findings, failures)
    requires IsBaseline(Sort(Collected(ReportOf(findings, failures, render), ErrorLevel), FindingLe), table)
    requires k in table && x in table[k].checks
    ensures x != "" && '*' !in x && '*' !in k && (k == "root" || !HasPrefix(k, "source/"))
  {
    var collected := Collected(ReportOf(findings, failures, render), ErrorLevel);
    var sorted := Sort(collected, FindingLe);
    hide Sort, Collected, ReportOf, FindingLe;
    ListedMember(table[k].checks, CodesFor(sorted, k), x);
    var f :| f in sorted && f.entityKey == k && f.checkCode == x;
    SortContents(collected, FindingLe);
    MultisetMembers(sorted, collected);
    CollectedOnly(findings, failures, render, f);
    if j :| 0 <= j < |findings| && f.entityKey == EntityKey(findings[j].package) && f.checkCode == findings[j].check {
      assert findings[j] in findings;
    }
  }

  /**
   * From a policy without acknowledgements, and without wildcards in identifiers, the baseline clears a failing
   * finding exactly when it has a check code and is not keyed "root" below the root.
   */
  lemma BaselineClearsIff(s: Setting, cases: seq<Case>, time: int, first: seq<AckChoice>, findings: seq<Finding>,
                          failures: seq<PackageError>, render: Note -> string, table: AckTable,
                          choices: seq<AckChoice>, again: seq<Finding>, i: nat)
    requires s.policy.Some? && s.Failures() == map[] && WildcardFree(findings, failures)
    requires Graded(s, cases, first, time, findings)
    requires IsBaseline(Sort(Collected(ReportOf(findings, failures, render), ErrorLevel), FindingLe), table)
    requires Graded(Rebased(s, table), cases, choices, time, again)
    requires i < |cases| && Fails(findings[i])
    ensures !Fails(again[i]) <==> Baselinable(cases[i])
  {
    var c := cases[i];
    GradedPackages(s, cases, first, time, findings);
    assert Unlapsed(table, time) && KeepsEntries(s.Failures(), table);
    hide Sort, Collected, SeverityOf, IsBaseline, Unlapsed, KeepsEntries;
    if Baselinable(c) {
      BaselineAccepts(findings, failures, render, table, i);
      CaseCloses(s, table, c, first[i], choices[i], time, findings[i], again[i]);
    } else {
      UnbaselinableUncovered(findings, failures, render, table, c, choices[i].failure);
      StillBlocking(s, table, c, first[i], choices[i], time, findings[i], again[i]);
    }
  }

  lemma StillBlocking(s: Setting, table: AckTable, c: Case, first: AckChoice, choice: AckChoice, time: int, f: Finding, g: Finding)
    requires s.policy.Some? && s.Failures() == map[] && choice.failure.None?
    requires ValidChoice(s, c, first) && Classify(s, c, first, time) == Ok(f) && Fails(f)
    requires Classify(Rebased(s, table), c, choice, time) == Ok(g)
    ensures Fails(g)
  {
    hide SeverityOf, Sort;
    assert first.failure.None?;
    assert SeverityAt(s, c, time) == SeverityAt(Rebased(s, table), c, time);
  }

  /** A package that could not be scored is collected like any other error, under its own key. */
  lemma AuditErrorsAreCollected(findings: seq<Finding>, failures: seq<PackageError>, render: Note -> string, j: nat)
    requires j < |failures|
    ensures InitFinding(EntityKey(failures[j].key), AUDIT_ERROR, failures[j].message)
      in Collected(ReportOf(findings, failures, render), ErrorLevel)
  {
    hide GradedRun;
    var report := ReportOf(findings, failures, render);
    var run := report[j + 1];
    assert run == [FailureResult(failures[j])];
    KeyOfName(failures[j].key);
    CollectedInMember(run, ErrorLevel, 0);
    CollectedMember(report, ErrorLevel, j + 1, FindingFor(run[0]));
  }
}
