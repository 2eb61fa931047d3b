# OSS Risk Guard: verified models of the analysis engine, the policy language and the graph algorithms

This project models the parts of OSS Risk Guard in which order, time, cycles or a round trip decide the result, and
proves what the code can be relied on to do. `dafny verify dfyconfig.toml` checks all of it.

**The staged DAG executor.** `TopologicalSort.dfy` is the staged form of Kahn's algorithm, with its in-degree map that
is counted down and deleted from; `DependencyGraph.dfy` says independently what the stages ought to be. `Execution.dfy`
describes one execution as a state machine: the workers of a stage are pending, running, sent or failed, then their
outputs are folded one by one. A run is any sequence of allowed steps, so map order, scheduling and channel order are
all choices of the run. `RunInvariants.dfy`, `RunLog.dfy`, `RunOutcome.dfy` and `StageRuns.dfy` prove what every run
keeps, what every two runs agree on and when two runs can disagree; `RunResults.dfy` says what a finished run holds for
every node and what no-fetch mode changes. `Dag.dfy` holds the imperative `AddNode`, `executeNode` and `Execute`, proved to make such runs.
`Input.dfy` is the input that nodes enrich for the nodes after them.

**The policy engine.** `Pattern.dfy` is the `*` pattern language, `SeverityPath.dfy` the path grammar with its parser and
its printer, `Policy.dfy` rule matching and acknowledgement lookup, `PolicyMerge.dfy` and `PolicyLoader.dfy` the overlay
of two policies and the way from a policy file to a compiled policy and back, and `RuleText.dfy` what the text of a rule
asks of a context. `Evaluation.dfy` grades every violation at a given time, `Sarif.dfy` turns findings into a report and
a verdict, and `Baseline.dfy` turns a report back into acknowledgements and evaluates again.

**Graphs, windows and texts.** `Locations.dfy` and `DevFlag.dfy` are the two propagations over lockfile edges,
`SbomView.dfy` the tree printed from an SBOM, `Authors.dfy` the busiest 30-day window of a commit history,
`PackageOverrides.dfy` the choice of overrides for a package, `Message.dfy` the text of a SARIF result and its parser,
`PackageKey.dfy` the identifier of a package and its parser, and `KeyReaders.dfy` what the other readers of identifiers
find in it.

Where a maintainer might expect more than the code does, the model follows the code, and where a law can fail its exact
condition is proved:

- Parallel siblings of one stage can both offer a source URL or directory that the input lacks; which one stays depends
  on channel order: from such a stage there are two runs with different inputs. A stage has a single possible result
  exactly when its offers agree (`StageRuns.StageDeterminateIffOffersAgree`, `AnalysisInput.OrderIrrelevantIffOffersAgree`).
- Two acknowledgement keys of equal specificity and length tie, and map order picks one
  (`Policy.TieFallsToMapOrder`). Every order gives the same answer exactly when all best keys carry the same
  acknowledgement (`Policy.AckDeterminedIff`).
- `%q` escapes characters that the path parser never unescapes. A path survives printing and parsing exactly when its
  source pattern has no such character (`SeverityPath.RoundTripIff`).
- Writing back a merged policy keeps only the first rule of each printed path. A blocking base rule softened by the
  repository under the same path still blocks in the merged policy, but only warns once that policy has been written and
  compiled again (`PolicyLoader.MergedPolicyNotPreserved`); `PolicyLoader.RecompiledSameIff` gives the exact condition.
- A baseline clears a failing finding exactly when the finding has a check code and is not an analysis keyed `root` below
  depth 0 (`Baseline.BaselineClearsIff`).
- The comment at `cmd/risk-guard/pipeline.go:228-231` says that triage skips results for packages that could not be
  scored. The code collects them like any other error (`Baseline.AuditErrorsAreCollected`).
- The range of days scanned for the busiest window runs from the day of the earliest instant to that of the latest, each
  in its own commit's zone. Zones can therefore hide a window, even all of them (`Authors.ZonesLoseAWindow`). Whoever the
  commits are by, the scan finds the calendar's maximum exactly when the range is not empty and every commit out of its
  reach is more than 29 days from every other commit (`Authors.ScanExactIff`).
- Siblings of the SBOM tree with equal labels may come in any order; otherwise the order is determined
  (`SbomView.SiblingsDeterminedIff`).
- A message is taken apart into the parts it was built from exactly when they are tidy and no part hides a section mark
  of its own (`Message.RoundTripIff`); a package key is read back exactly under the conditions of `PackageKey.RoundTripIff`.

## Model

| member | source | states |
|---|---|---|
| TopologicalSort.TopologicalSort | src/execution-dag/topologicalSort.go:6-65 | succeeds if and only if every dependency is registered and the graph has no cycle (self-dependencies count, duplicates do not matter); the stages are then canonical; the error names a missing dependency or reports the cycle; it always terminates |
| TopologicalSort.InDegrees | src/execution-dag/topologicalSort.go:10-26 | the counts are the numbers of dependencies that still wait, with multiplicity, or the error names a node and a dependency of it that is not registered |
| TopologicalSort.ZeroDegree | src/execution-dag/topologicalSort.go:32-38 | exactly the keys with count zero, each once, in whatever order the map is iterated |
| TopologicalSort.DecrementDependents | src/execution-dag/topologicalSort.go:47-61 | a removed node lowers the count of each remaining node by the number of times that node lists it |
| TopologicalSort.RemoveNode | src/execution-dag/topologicalSort.go:47-61 | after deleting a key the map still counts exactly the dependencies among the nodes left, so no deleted key comes back |
| TopologicalSort.RemoveStage | src/execution-dag/topologicalSort.go:46-61 | a non-empty stage strictly lowers the number of nodes left, which is what makes the sort end |
| DependencyGraph.ChainToIsPath | src/execution-dag/topologicalSort.go:31-62 | the recursive notion of a chain of n dependencies is the existence of a path of n + 1 nodes |
| DependencyGraph.ClosedSetHasCycle | src/execution-dag/topologicalSort.go:39-42 | if every remaining node depends on a remaining node there really is a cycle (by the pigeonhole principle) |
| DependencyGraph.CanonicalAcyclic | src/execution-dag/topologicalSort.go:6-65 | a graph that can be staged has no cycle |
| DependencyGraph.CanonicalUnique | src/execution-dag/topologicalSort.go:31-62 | map order changes neither the number of stages nor the nodes of any stage |
| DependencyGraph.CanonicalRespectsDependencies | src/execution-dag/topologicalSort.go:31-62 | every dependency of a node is in a strictly earlier stage |
| DependencyGraph.CanonicalMinimal | src/execution-dag/topologicalSort.go:31-62 | no grouping that runs dependencies earlier has fewer stages |
| DependencyGraph.CanonicalOneStage | src/execution-dag/topologicalSort.go:31-62 | a node is in one stage only |
| Dag.Dag.AddNode | src/execution-dag/dag.go:106-131 | registers a node of a new type and refuses a type that is already registered, leaving the others alone |
| Dag.ExecuteNode | src/execution-dag/execute.go:48-154 | the outcome of a node: auto-skip with the reason of the first skipped dependency, the read-only path of fetch nodes, the error, or the reported output; an auto-skip is recorded as a skip whatever status its output carries |
| Dag.Dag.RunStage | src/execution-dag/execute.go:206-246 | a stage whose workers finish in any order is a legal stretch of a run; it ends in the fold, or in the first error taken from the channel |
| Dag.Dag.FoldStage | src/execution-dag/execute.go:248-263 | the sequential fold is a legal stretch of a run; a failing override stops it |
| Dag.Dag.Execute | src/execution-dag/execute.go:184-271 | fails to sort exactly on a missing dependency or a cycle; otherwise there is a run of the state machine that ends in the returned context, input and error |
| RunInvariants.NextKeeps | src/execution-dag/execute.go:199-263 | every step keeps: each node of the stage is exactly one of pending, running, sent, failed, and what has been folded is a fold of exactly the outputs taken so far |
| RunInvariants.RunKeeps | src/execution-dag/execute.go:199-263 | that invariant holds in every state of every run |
| RunInvariants.SendsNeverBlock | src/execution-dag/execute.go:208-209 | whenever a worker is running, both channels have a free slot |
| RunLog.StartsAfterDependencies | src/execution-dag/execute.go:199-264 | in every run a node begins only after all its dependencies have been stored, and finds them in the context its worker reads |
| RunLog.SkippedNeverMerged | src/execution-dag/execute.go:248-263 | no output is stored twice; an output is overridden and merged if and only if it is stored and not skipped |
| RunLog.OneOutputPerNode | src/execution-dag/execute.go:199-270 | a successful run stores exactly one output per registered node and nothing else |
| RunOutcome.SkippedSetDetermined | src/execution-dag/execute.go:62-90 | the skipped nodes are the one and only set in which a node is skipped exactly when it reported so or may be auto-skipped and depends on a skipped node |
| RunOutcome.RunsAgree | src/execution-dag/execute.go:184-271 | two successful runs agree on outputs, skips and input (up to the order of packages that differ only in `Private`) for every completion order and map order, if siblings agree and nodes ignore that order |
| RunOutcome.NoRunFailsIfOneFinishes | src/execution-dag/execute.go:199-264 | under the same provisos, once one run finishes no run ends in a node error or an override error, whatever the order |
| StageRuns.StageInOrder | src/execution-dag/execute.go:206-263 | for every order of the nodes of a stage that all succeed there is a run in which the workers finish and are folded in that order |
| StageRuns.DisagreementShows | src/execution-dag/execute.go:251-263 | from every reachable stage whose siblings' offers disagree there are two runs that leave the stage with different inputs |
| StageRuns.StageDeterminateIffOffersAgree | src/execution-dag/execute.go:251-263 | all runs of a reachable stage whose nodes succeed leave it alike if and only if its nodes' offers agree on every field the input lacks |
| RunResults.FinishedNode | src/execution-dag/execute.go:62-153 | after a finished run every node was either skipped for its first skipped dependency, with that reason, or produced an output from its stage's starting boundary: by reading if it fetches and the run must not, otherwise by executing; an output that says skipped is kept with its reason, any other is stored overridden |
| RunResults.FetchNeedsRead | src/execution-dag/execute.go:118-125 | no no-fetch run finishes that has to run a fetch node without `Read` |
| RunResults.NoFetchNeverExecutes | src/execution-dag/execute.go:112-129 | in no-fetch mode configurations that differ only in what fetch nodes execute have the same runs |
| RunResults.FetchNeverReads | src/execution-dag/execute.go:112-129 | outside no-fetch mode configurations that differ only in what nodes read have the same runs |
| AnalysisInput.Input.Merge | src/dag-impl/input.go:131-182 | identity never changes; a source URL or directory is filled once and then kept; packages not yet listed are added once and the list is sorted when any are offered |
| AnalysisInput.Input.AppendPackages | src/dag-impl/input.go:165-181 | the packages added are exactly the offered ones that were not there, each once |
| AnalysisInput.SortPackages | src/models/package.go:12-22 | a sorted rearrangement by ecosystem, name and version; ties may come in any order |
| AnalysisInput.PackageOrder | src/models/package.go:12-22 | the sorted list stands by ecosystem, then name, then version, whatever the private flags |
| AnalysisInput.MergeOfAppend | src/dag-impl/input.go:131-182 | merging offers one after another amounts to merging all of them |
| AnalysisInput.MergeUnique | src/dag-impl/input.go:131-182 | if the offers agree, any two merges of them give the same input up to packages that differ only in `Private` |
| AnalysisInput.OrderIrrelevantIffOffersAgree | src/dag-impl/input.go:131-182 | merging a list of offers gives the same input in every order if and only if the offers agree |
| Pattern.MatchesIffFilled | src/policy/path_parser.go:21-30 | a pattern matches exactly the strings obtained by replacing each `*` with a string that has no slash |
| Pattern.MatchesItself | src/policy/path_parser.go:21-30 | every pattern matches itself |
| SeverityPath.DepthRangeRoundTrip | src/policy/yaml.go:81-89 | every depth range the parser produces is read back from its printed form |
| SeverityPath.ParserShape | src/policy/path_parser.go:77-226 | whatever the text, an accepted path has a non-empty source pattern without quotes, slash-free names and an ordered depth range |
| SeverityPath.PrintedParses | src/policy/yaml.go:49-79 | every such path prints to a text the parser accepts, and comes back with only its source pattern changed, to its quoted form |
| SeverityPath.RoundTripIff | src/policy/yaml.go:49-79 | printing then parsing an accepted path is the identity if and only if `%q` escapes nothing in its source pattern |
| SeverityPath.QuoteInjective | src/policy/yaml.go:49-54 | different source patterns are never printed alike, whatever has to be escaped |
| RuleText.DepthMeans | src/policy/path_parser.go:196-226 | an accepted depth text holds for that depth, from that depth on, or between its two depths |
| RuleText.TextMeans | src/policy/path_parser.go:77-194 | a rule read from a text without source matches a context exactly when each keyword of the text holds with its value, its specificity counts the keywords, a category for nothing, and its wildcards are the stars of its target |
| RuleText.SourceTextMeans | src/policy/path_parser.go:62-119 | with a quoted source pattern it must also match the source path, which counts for two, and its stars count as wildcards |
| RuleText.SourceTextShape | src/policy/path_parser.go:62-119 | every accepted text beginning with `source/` has a non-empty quoted pattern and a tail |
| Policy.GetSeverity | src/policy/matcher.go:9-45 | returns the severity of the deciding rule: the highest-ranked resolved severity among matching rules of maximal specificity; without a match blocking, or an error for a check without category |
| Policy.SeverityMeans | src/policy/matcher.go:9-45 | among the most specific matching rules, one written as blocking or past its deadline makes the severity blocking; failing that, one written as a warning makes it a warning; failing that, one to be ignored makes it ignored; without a match it is blocking, or an error for a check without category |
| Policy.NoteMeans | src/policy/matcher.go:185-204 | the reported rule is a most specific matching one, and the note names its passed or coming deadline, or its reason |
| Policy.DeadlineIsExclusive | src/policy/matcher.go:185-193 | on its date a rule still has its written severity, an instant later it blocks |
| Policy.DeciderExists | src/policy/matcher.go:14-34 | whenever a rule matches there is a deciding one, heavier than all earlier and not lighter than any later match |
| Policy.SeverityIgnoresRuleOrder | src/policy/matcher.go:14-34 | permuting the rules changes neither the deciding weight nor the severity |
| Policy.JoinedWeight | src/policy/matcher.go:14-34 | joined rule lists decide by the lexicographically greater (specificity, rank) of the two decisions |
| Policy.MatchAck | src/policy/matcher.go:120-159 | the loop's answer for some iteration order of the map: an acknowledgement under a best covering key, or the root entry at depth 0 when no key covers |
| Policy.BestKeyMeans | src/policy/matcher.go:76-88 | of two covering keys the one with a query wins, then the one without a star, then the longer |
| Policy.AckPossibleIff | src/policy/matcher.go:120-159 | the answers described by best keys are exactly those the loop gives for some iteration order of the map |
| Policy.BestKeyReturned | src/policy/matcher.go:144-149 | each best key's acknowledgement is returned in some iteration order |
| Policy.AckDeterminedIff | src/policy/matcher.go:120-159 | every iteration order gives the same answer if and only if all best keys carry the same acknowledgement |
| Policy.TieFallsToMapOrder | src/policy/matcher.go:144-149 | two overlapping keys of equal specificity and length: each of the two orders returns the other acknowledgement |
| PolicyMerge.Merge | src/policy/merge.go:5-75 | a missing side gives the other; otherwise both rule lists sorted together, overlay entries replacing base entries of the same key, and the overlay's workflow if it has one |
| PolicyMerge.MergedWeight | src/policy/merge.go:16-42 | in every context the merged policy decides by the lexicographic maximum of the two policies' own decisions |
| PolicyMerge.OverlayWinsTies | src/policy/merge.go:26-42 | the rule reported is the base's only if every equally heavy overlay rule has more wildcards |
| PolicyMerge.MergedOrder | src/policy/merge.go:26-38 | merged rules stand by falling specificity, rising wildcards, overlay before base |
| PolicyLoader.ParseSeverityRules | src/policy/loader.go:141-186 | succeeds if and only if every entry has a valid path and severity, and then gives exactly one rule per entry, sorted |
| PolicyLoader.CompiledOrder | src/policy/loader.go:171-183 | compiled rules stand by falling specificity, rising wildcards, falling length of the target's name, then its name |
| PolicyLoader.CompileExpectedTable | src/policy/loader.go:119-139 | copies the table unchanged if and only if every key is valid and every entry lists a check |
| PolicyLoader.ValidAckKeyIff | src/policy/path_parser.go:228-245 | a key is accepted if and only if it is `root`, or has two more segments after `package` or `source` once its query is dropped |
| PolicyLoader.Compile | src/policy/loader.go:83-113 | succeeds exactly on files of a supported version with valid rules and tables, and keeps tables and workflow |
| PolicyLoader.ToPolicy | src/policy/yaml.go:24-47 | writes, under every printed path, the value of the first rule with that path, and nothing else |
| PolicyLoader.WrittenBackCompiles | src/policy/yaml.go:24-47 | a written-back policy of escape-free rules compiles again |
| PolicyLoader.RecompiledSameSeverity | src/policy/loader.go:141-186 | compiling what was written back gives the same severity in every context, provided no rule is outranked by a later one of the same printed path |
| PolicyLoader.DistinctNeverOutranked | src/policy/yaml.go:24-47 | pairwise distinct printed paths meet that proviso |
| PolicyLoader.RecompiledSameIff | src/policy/yaml.go:24-47 | in a given context the severity is kept if and only if no rule matches or some heaviest matching rule is the first of its printed path |
| PolicyLoader.MergedPolicyNotPreserved | src/policy/merge.go:26-42 | a blocking base rule softened under the same path blocks after merging but only warns after writing back and compiling |
| Evaluation.EvaluateViolation | src/policy/evaluate_core.go:53-136 | the kind, note and rule of the finding for one violation, for some possible answer of the two acknowledgement lookups, and whether its analysis is blocked |
| Evaluation.KindMeans | src/policy/evaluate_core.go:78-125 | the exact kind of a finding from its severity and the acknowledgements found: ignored, expired, acknowledged, blocking or warning, a lapsed warning entry leaving a plain warning |
| Evaluation.FindingNote | src/policy/evaluate_core.go:73-125 | the note names the acknowledgement that covers the finding or has lapsed, and is otherwise that of the severity |
| Evaluation.BlocksMeans | src/policy/evaluate_core.go:84-121 | an analysis counts as blocked exactly for a blocking severity without an unlapsed expected failure |
| Evaluation.Evaluate | src/policy/evaluate_core.go:10-144 | one finding per violation in order, counters that are the numbers of findings of each kind, status BLOCKED, WARNING or PASS by what was found, and an error exactly when some violation has neither rule nor category |
| Evaluation.StatusMeans | src/policy/evaluate_core.go:129-135 | BLOCKED exactly with a blocking or expired finding, WARNING exactly with a warning and none of those, PASS otherwise |
| Evaluation.SettingMeans | src/policy/evaluate_core.go:18-23 | without a policy the default rules decide, nothing is acknowledged and the mode is active; an unset mode is active |
| KeyReaders.PackageIsGradedIn | src/policy/helpers.go:17-38 | a package is graded in a context with its ecosystem, no source path, the length of its dependency path, its dev flag and the check's categories |
| KeyReaders.SourceIsGradedIn | src/policy/helpers.go:17-38 | a source is graded in a context with ecosystem `source` and its path without the query |
| KeyReaders.BareKeyCoversEveryVersion | src/policy/matcher.go:128-140 | an acknowledgement under a package's bare key covers every version of it |
| KeyReaders.VersionKeyCoversThatVersion | src/policy/matcher.go:128-140 | one under a key with a version covers that version under the same overrides and nothing else |
| Evaluation.SeverityLater | src/policy/matcher.go:185-204 | at a later time a severity is what it was, or blocking |
| Evaluation.LevelNeverFalls | src/policy/evaluate_core.go:53-136 | with the same lookups, a later evaluation never lowers the level of a finding |
| Evaluation.VerdictNeverRelaxes | src/policy/evaluate_core.go:53-136 | a whole evaluation repeated later is at least as severe in every finding and in its status |
| Evaluation.GradableLater | src/policy/evaluate_core.go:53-136 | what can be graded now can be graded at every later time |
| Evaluation.FindingsConserved | src/policy/evaluate_core.go:32-141 | findings correspond one to one and in order to violations, carry their analysis's and violation's data with the categories sorted, and the five counters sum to their number |
| Sarif.KeyOfResult | src/lib/common/sarif/convert.go:149-164 | collapsing a local path in the logical name never changes the policy key read back from it |
| Sarif.KeyOfFirstName | cmd/risk-guard/init_triage.go:70-87 | the first named logical location gives a result's policy key; without one it is root |
| Sarif.LocalSourceName | src/lib/common/sarif/convert.go:149-164 | a local source is shown by the last element of its path, trailing slashes and query dropped |
| Sarif.OtherNamesStay | src/lib/common/sarif/convert.go:149-164 | every other name is shown unchanged |
| Sarif.AssembleReport | cmd/risk-guard/pipeline.go:149-181 | one run with a result per finding, then one run with one error per package that could not be scored |
| Sarif.CountErrorLevel | cmd/risk-guard/mode.go:99-112 | counts the error-level results of all runs |
| Sarif.GradedLevels | src/lib/common/sarif/convert.go:99-114 | the numbers of results at each level are the numbers of findings of the corresponding kinds |
| Sarif.RunVerdict | cmd/risk-guard/run_all.go:192-225 | fails exactly in active mode with at least one error-level result |
| Sarif.ReportErrors | src/lib/common/sarif/convert.go:99-114 | the report's errors are the blocking findings, the expired findings and the packages that could not be scored |
| Sarif.FailsExactlyWhenBlocked | cmd/risk-guard/run_all.go:192-225 | a run fails if and only if the mode is active and the status is BLOCKED or some package could not be scored |
| Baseline.CollectInitFindings | cmd/risk-guard/init_triage.go:24-64 | exactly the results of the level with a rule id, sorted by entity and check |
| Baseline.CollectedInOrder | cmd/risk-guard/init_triage.go:57-62 | the findings stand by entity and then by check, and none is lost or added |
| Baseline.BuildExpectedFailures | cmd/risk-guard/init_triage.go:238-263 | one entry per entity with exactly its check codes, sorted and without repetition, that never expires |
| Baseline.MergeExpectedFailures | cmd/risk-guard/init_triage.go:209-236 | adds the picked codes; existing codes, reasons, expiry dates and approvers stay |
| Baseline.MergedTable | cmd/risk-guard/init_triage.go:209-236 | a merged table accepts all it accepted and all that was picked, and has a lapsed entry only if it had one |
| Baseline.BaselineCloses | src/policy/matcher.go:120-159 | with any table that accepts the failing findings, keeps old entries and has none lapsed, a second evaluation has no blocking or expired finding |
| Baseline.BaseliningClosesTheLoop | cmd/risk-guard/init_triage.go:238-263 | from a policy without acknowledgements, installing the table built from the report's errors and evaluating again at the same time leaves no failing finding; only packages that could not be scored remain as errors |
| Baseline.BaselineClearsIff | cmd/risk-guard/init_triage.go:24-87 | without wildcards in identifiers, a failing finding is cleared if and only if it has a check code and is at depth 0 or not keyed root |
| Baseline.BaselineCompiles | src/policy/path_parser.go:228-245 | a baseline built from source identifiers and well-formed package identifiers is accepted by the loader when it comes back through the policy file |
| Baseline.CollectedOnly | cmd/risk-guard/init_triage.go:24-87 | every collected entry comes from a graded finding or a package that could not be scored, under that one's key and code |
| Baseline.AuditErrorsAreCollected | cmd/risk-guard/pipeline.go:228-258 | a package that could not be scored is collected under its own key, against the source comment |
| Locations.AttachManifestLocations | src/ecosystem/lockfile/locations.go:20-70 | a transitive edge without a position gets one if and only if its parent is reached from a declared direct dependency, and then the position of such a dependency; nothing else changes; passes are at most the number of child keys plus one |
| Locations.LocateDirect | src/ecosystem/lockfile/locations.go:36-46 | direct edges get the position declared for their name, and the keys that become known are theirs |
| KeyReaders.NameOfIdentifier | src/ecosystem/lockfile/locations.go:74-81 | the name read from a package identifier is its name, whatever the version and overrides |
| KeyReaders.DirectEdgeLocated | src/ecosystem/lockfile/locations.go:20-47 | a direct edge to a package, at any version, ends with the position of the last dependency declared with a position under that name, in whatever ecosystem |
| Locations.SpreadOnce | src/ecosystem/lockfile/locations.go:48-68 | a pass that reports no change has left no edge to locate |
| Locations.AttachedTwice | src/ecosystem/lockfile/locations.go:20-70 | a second application changes nothing |
| DevFlag.PropagateDevFlag | src/ecosystem/lockfile/propagate_dev_flag.go:7-41 | an edge ends as non-dev if and only if its child is reached by a path from a non-dev root edge through parents other than the root, on any graph and for any map order; nothing else changes |
| DevFlag.ProductionReachable | src/ecosystem/lockfile/propagate_dev_flag.go:20-35 | the breadth-first search finds exactly the production-reachable keys and terminates on cycles |
| DevFlag.FlaggedTwice | src/ecosystem/lockfile/propagate_dev_flag.go:7-41 | flagging twice equals flagging once |
| SbomView.SbomTree.Walk | cmd/risk-guard/sbom_view.go:155-185 | appends the lines of one tree: under an expanded key its distinct dependencies in label order one level deeper, the last one marked, under any other key nothing; terminates on cyclic graphs |
| SbomView.SbomTree.PrintTree | cmd/risk-guard/sbom_view.go:102-118 | one block per ecosystem in order; each mark says rightly whether a key has no dependencies, is cut off by the depth limit, was expanded before or is expanded here; each key is expanded at most once; without a limit exactly the reachable keys are printed |
| SbomView.MarksMean | cmd/risk-guard/sbom_view.go:166-184 | a line is a leaf without dependencies, cut off with their number at the limit, repeated if an earlier line expanded the key, and expanded otherwise |
| SbomView.BlockMembers | cmd/risk-guard/sbom_view.go:124-139 | a block holds the direct dependencies recorded under its ecosystem; those without one stand under `unknown` |
| SbomView.SortedChildren | cmd/risk-guard/sbom_view.go:190-201 | the distinct keys, each once, in label order |
| SbomView.SiblingOrder | cmd/risk-guard/sbom_view.go:190-208 | named siblings stand by name and version |
| SbomView.VersionOrder | cmd/risk-guard/sbom_view.go:246-251 | entries of one package stand by version text, the one without a version first |
| SbomView.SiblingsDeterminedIff | cmd/risk-guard/sbom_view.go:187-201 | the order of siblings does not depend on how they were listed if and only if their labels differ |
| SbomView.GroupByEcosystem | cmd/risk-guard/sbom_view.go:124-139 | each ecosystem once, in order, with exactly its keys in the incoming order |
| Authors.CalculateMaxMonthlyAuthors | src/git/analyzer.go:332-395 | the first window of 30 days with the most distinct authors among those scanned; its count is the maximum over the whole calendar whenever the scan covers the commits, and for orderly commits it is the first such window of the calendar |
| Authors.ScanExactIff | src/git/analyzer.go:350-392 | for every assignment of authors to the commit times the scanned maximum is that of all windows of the calendar, if and only if the scanned range is not empty and every commit out of its reach is more than 29 days from every other |
| Authors.OrderlyBusiest | src/git/analyzer.go:350-392 | when day order agrees with instant order, the window reported is the earliest of all windows of the calendar with the most authors |
| Authors.OrderlyCovered | src/git/analyzer.go:350-364 | commits whose day order agrees with instant order meet that condition |
| Authors.ZonesLoseAWindow | src/git/analyzer.go:366-372 | two commits whose zones put the later one on the earlier day: no window is reported, although one holds two authors |
| Authors.ZeroTimesAreMissed | src/git/analyzer.go:350-363 | handed commits at the zero time, which git never reports, the function leaves a busier window unscanned |
| PackageOverrides.MoreSpecificIsStrictTotal | cmd/risk-guard/package_overrides.go:139-148 | the comparison of patterns is a strict total order |
| PackageOverrides.MatchOverrideEntries | cmd/risk-guard/package_overrides.go:103-114 | the entries of exactly the patterns that match the key or the key without its query, in some order of the patterns |
| PackageOverrides.DedupeByPath | cmd/risk-guard/package_overrides.go:120-133 | the entry kept for a path beats every earlier one and no later one beats it |
| PackageOverrides.BestIsWinner | cmd/risk-guard/package_overrides.go:116-133 | whatever order the patterns were listed in, that entry is the first for the path under the most specific pattern |
| PackageOverrides.WinnerMeans | cmd/risk-guard/package_overrides.go:139-148 | the winning pattern has no star if any contender has none, is at least as long as contenders alike in that, and comes first in string order among equally long ones |
| PackageOverrides.BarePathMeans | cmd/risk-guard/package_overrides.go:120-126 | the leading `output.` of a path is dropped, other paths stay |
| KeyReaders.BareKeyAppliesToEveryVersion | cmd/risk-guard/package_overrides.go:103-114 | an override under a package's bare key applies to every version of it |
| PackageOverrides.PackageOverridesFor | cmd/risk-guard/package_overrides.go:63-91 | sorted, with distinct paths; each path has its winner among the user's entries, or among the built-in ones if the user has none |
| PackageOverrides.ResolutionUnique | cmd/risk-guard/package_overrides.go:63-91 | every map iteration order gives the same list |
| PackageOverrides.HashReadsTheList | src/overrides/hash.go:18-54 | any sort by path, value and reason leaves such a list as it is, so the hash reads the same list every time |
| Message.BuildMessage | src/lib/common/sarif/convert.go:116-134 | the loop writes the rationale, the evidence section and the note section |
| Message.SplitMessageParts | cmd/risk-guard/view_audit_github.go:153-170 | peels off the note after the last note mark and the non-empty evidence lines after the last evidence mark |
| Message.PartsAreTidy | cmd/risk-guard/view_audit_github.go:153-170 | whatever the text, the parts read are trimmed and the evidence items are non-empty single lines |
| Message.RoundTripIff | cmd/risk-guard/view_audit_github.go:150-170 | splitting undoes building if and only if the parts are tidy and unambiguous |
| PackageKey.UnescapeEscape | src/dag-impl/input.go:57 | unescaping undoes escaping for every byte string |
| PackageKey.NewPackageInputWithVersion | src/dag-impl/input.go:54-81 | the identifier carries version and hash only when present, and the input lists the one package |
| PackageKey.ParseKeyIdentity | cmd/risk-guard/sbom_graph.go:268-290 | splits the key at the first question mark and the path at its first slash; the last version parameter counts |
| PackageKey.IdentifierRead | cmd/risk-guard/sbom_graph.go:268-290 | what is read from an identifier with plain parts, whatever the hash holds |
| PackageKey.KeepsVersionIff | cmd/risk-guard/sbom_graph.go:270-280 | the loop over the parameters keeps the version if and only if no parameter after the hash's first `&` gives a version, or the last that does gives the same one |
| PackageKey.RoundTripIff | cmd/risk-guard/sbom_graph.go:268-290 | ecosystem, name and version come back if and only if the ecosystem is non-empty without slash and question mark, the name non-empty without question mark, and the parameters in the hash give no other version (or all three are empty) |
| PackageKey.PlainHashKeepsVersion | src/dag-impl/input.go:57-62 | a hash without `&` never disturbs the version |
| PackageKey.HashCanChangeVersion | cmd/risk-guard/sbom_graph.go:268-281 | a hash that carries a version parameter overrules the real version |
| PackageKey.IdentifiersDistinct | src/dag-impl/input.go:54-63 | different (ecosystem, name, version, hash) never share an identifier, whatever the hash, for ecosystems without slash and names without question mark |

## Left out

- Text: strings are sequences of characters, lengths count characters rather than UTF-8 bytes, and invalid UTF-8 is not modelled; only versions in package keys are byte strings.
- Foreign tables: which characters `%q` prints as they are (`isPrint`) and lower-casing of e-mail addresses (`lower`) are parameters.
- Go's regular expressions: patterns are matched by a recursive matcher, so a pattern never fails to compile and `ValidatePattern` never rejects.
- Notes and matched rules: a finding carries the note and the rule as data; their wording (`formatMatchedRule`, `formatAckNote`, dates) is not modelled, and `render` stands for the wording when a report is built.
- Node bodies, overrides applied to an output, cancellation: uninterpreted functions and parameters of a run.
- Dag.Dag.Execute: each worker runs in one step, in an arbitrary order; the interleavings of finer steps are those of the state machine of `Execution.dfy`, over which the theorems are stated.
- Logging, tracing spans, `WarnUnconsumed` and the record of applied overrides.
- Sharing of memory: outputs, locations, package slices and option values are values, so updates through a second pointer are not modelled.
- `sort.Slice` is not stable: where the source uses it on keys that can tie, contracts allow every order of the ties.
- PolicyLoader.Compile: which of several errors is reported depends on map order and is not fixed.
- Evaluation.EvaluateViolation: the answers of the acknowledgement lookups are some possible ones, because ties fall to map order.
- Locations.AttachManifestLocations: which of several reaching direct dependencies gives the position is not fixed.
- The result's source, policy breakdown and check-passed count of an evaluation; the rule table, dependency-path names, automation details and physical locations of a SARIF report.
- Colours, connectors, indentation and labels of the SBOM tree; a line is a key, a depth, a last-sibling flag and a mark.
- `CollectUpstreamSources`, `GetNodes` and the override descriptors of a DAG; source identifiers; `buildSBOMNodes` and edge collection.
- `analyzeCommitMetrics` beyond its rolling window: bot filtering, recent authors, commit counts.
- Interactive triage, annotations and evidence de-duplication in GitHub output, GitLab output.
- Git commands, registries, archives, caches, signatures, YAML and JSON encoding, hashing internals.
