/** What the event log of a run always satisfies: the order of starts and stores, and who is merged. */
module RunLog {
  import opened Sequences
  import opened DependencyGraph
  import opened AnalysisInput
  import opened Execution
  import opened RunInvariants

  /** The nodes of the first `i` stages. */
  ghost function Earlier(c: Config, i: nat): set<TypeKey>
    requires i <= |c.stages|
  {
    if i == 0 then {} else Earlier(c, i - 1) + Elements(c.stages[i - 1])
  }

  lemma {:induction false} EarlierMember(c: Config, i: nat, k: TypeKey)
    requires i <= |c.stages|
    ensures k in Earlier(c, i) <==> exists j :: 0 <= j < i && k in c.stages[j]
  {
    if i > 0 {
      EarlierMember(c, i - 1, k);
    }
  }

  lemma StageNotEarlier(c: Config, i: nat, k: TypeKey)
    requires WellFormed(c) && i < |c.stages| && k in c.stages[i]
    ensures k !in Earlier(c, i)
  {
    EarlierMember(c, i, k);
    if j :| 0 <= j < i && k in c.stages[j] {
      CanonicalOneStage(Dependencies(c.nodes), c.stages, i, j, k);
    }
  }

  lemma DependencyEarlier(c: Config, i: nat, k: TypeKey, d: TypeKey)
    requires WellFormed(c) && i < |c.stages| && k in c.stages[i]
    requires k in c.nodes && d in c.nodes[k].dependencyKeys
    ensures d in Earlier(c, i)
  {
    var g := Dependencies(c.nodes);
    CanonicalRespectsDependencies(g, c.stages);
    assert d in g[k];
    assert InEarlier(c.stages, i, d);
    EarlierMember(c, i, d);
  }

  lemma AllEarlier(c: Config)
    requires WellFormed(c)
    ensures Earlier(c, |c.stages|) == c.nodes.Keys
  {
    forall k ensures k in Earlier(c, |c.stages|) <==> k in c.nodes {
      EarlierMember(c, |c.stages|, k);
      assert k in c.nodes <==> k in Dependencies(c.nodes);
      if j :| 0 <= j < |c.stages| && k in c.stages[j] {
        StageNodes(c, j, k);
      }
    }
  }

  lemma FoldedKeys(c: Config, b: Boundary, done: set<TypeKey>, t: Boundary)
    requires FoldedTo(c, b, done, t)
    ensures t.ctx.Keys == b.ctx.Keys + done && t.skipped.Keys <= b.skipped.Keys + done
  {
    hide Outcome, MergeOf;
  }

  lemma {:induction false} HistoryKeys(c: Config, h: seq<Boundary>, i: nat)
    requires IsHistory(c, h) && i < |h|
    ensures h[i].ctx.Keys == h[0].ctx.Keys + Earlier(c, i)
    ensures h[i].skipped.Keys <= h[0].skipped.Keys + Earlier(c, i)
  {
    hide FoldedTo;
    if i > 0 {
      HistoryKeys(c, h, i - 1);
      FoldedKeys(c, h[i - 1], Elements(c.stages[i - 1]), h[i]);
    }
  }

  /** The nodes whose outputs are stored. */
  ghost function Done(c: Config, s: State): set<TypeKey>
    requires 0 < |s.history| <= |c.stages| + 1
  {
    var i := |s.history| - 1;
    Earlier(c, i) + if s.phase.Folding? && i < |c.stages| then Elements(c.stages[i]) - Elements(SentKeys(s.phase.queue)) else {}
  }

  /** A node begins only after every one of its dependencies has been stored. */
  ghost predicate StartsLate(c: Config, log: seq<Event>) {
    forall m, d :: 0 <= m < |log| && log[m].Began? && log[m].key in c.nodes && d in c.nodes[log[m].key].dependencyKeys ==>
      Stored(d) in log[..m]
  }

  ghost predicate LogOk(c: Config, log: seq<Event>, done: set<TypeKey>, skipped: map<TypeKey, string>) {
    && (forall k :: multiset(log)[Stored(k)] == if k in done then 1 else 0)
    && StartsLate(c, log)
    && (forall k :: Overridden(k) in log <==> k in done && k !in skipped)
    && (forall k :: Merged(k) in log <==> k in done && k !in skipped)
  }

  ghost predicate LogInv(c: Config, s: State) {
    && 0 < |s.history| <= |c.stages| + 1
    && if s.phase.Stopped? then exists done :: LogOk(c, s.log, done, s.now.skipped)
       else LogOk(c, s.log, Done(c, s), s.now.skipped)
  }

  lemma StartsLateAppend(c: Config, log: seq<Event>, more: seq<Event>)
    requires StartsLate(c, log)
    requires forall m, d :: 0 <= m < |more| && more[m].Began? && more[m].key in c.nodes && d in c.nodes[more[m].key].dependencyKeys ==>
      Stored(d) in log
    ensures StartsLate(c, log + more)
  {
    var all := log + more;
    forall m, d | 0 <= m < |all| && all[m].Began? && all[m].key in c.nodes && d in c.nodes[all[m].key].dependencyKeys
      ensures Stored(d) in all[..m]
    {
      if m < |log| {
        assert all[..m] == log[..m];
      } else {
        assert all[..m] == log + more[..m - |log|];
        assert all[m] == more[m - |log|];
      }
    }
  }

  lemma LogBegan(c: Config, log: seq<Event>, done: set<TypeKey>, skipped: map<TypeKey, string>, k: TypeKey)
    requires LogOk(c, log, done, skipped)
    requires k in c.nodes && forall d :: d in c.nodes[k].dependencyKeys ==> d in done
    ensures LogOk(c, log + [Began(k)], done, skipped)
  {
    forall d | d in c.nodes[k].dependencyKeys ensures Stored(d) in log {
      assert multiset(log)[Stored(d)] == 1;
      assert Stored(d) in multiset(log);
    }
    StartsLateAppend(c, log, [Began(k)]);
  }

  lemma LogSkipped(c: Config, log: seq<Event>, done: set<TypeKey>, skipped: map<TypeKey, string>, k: TypeKey, reason: string)
    requires LogOk(c, log, done, skipped) && k !in done
    ensures LogOk(c, log + [Stored(k)], done + {k}, skipped[k := reason])
  {
    StartsLateAppend(c, log, [Stored(k)]);
  }

  lemma LogFolded(c: Config, log: seq<Event>, done: set<TypeKey>, skipped: map<TypeKey, string>, k: TypeKey)
    requires LogOk(c, log, done, skipped) && k !in done && k !in skipped
    ensures LogOk(c, log + [Overridden(k), Stored(k), Merged(k)], done + {k}, skipped)
  {
    var more := [Overridden(k), Stored(k), Merged(k)];
    StartsLateAppend(c, log, more);
    forall x ensures x in log + more <==> x in log || x in more {}
    assert more[0] in more && more[2] in more;
  }

  lemma SkippedDone(c: Config, b: Boundary, s: State)
    requires Inv(c, b, s) && b.skipped == map[] && !s.phase.Stopped?
    ensures s.now.skipped.Keys <= Done(c, s)
  {
    hide FoldedTo, Outcome, SentBy;
    var i := |s.history| - 1;
    HistoryKeys(c, s.history, i);
    if s.phase.Folding? {
      FoldedKeys(c, s.history[i], Elements(c.stages[i]) - Elements(SentKeys(s.phase.queue)), s.now);
    }
  }

  lemma FoldLog(c: Config, b: Boundary, s: State, after: InputValue, t: State)
    requires WellFormed(c) && Inv(c, b, s) && b.skipped == map[] && LogInv(c, s) && Allowed(c, s, Fold(after), t)
    ensures LogInv(c, t)
  {
    hide Outcome, MergeOf, IsHistory, FoldedTo, WellFormed, LogOk;
    var i := |s.history| - 1;
    var queue := s.phase.queue;
    var keys, k := SentKeys(queue), queue[0].key;
    SkippedDone(c, b, s);
    assert keys[0] == k && keys[0] in keys;
    assert SentKeys(queue[1..]) == keys[1..];
    assert keys == [k] + keys[1..];
    assert Elements(keys) == {k} + Elements(keys[1..]);
    assert k in c.stages[i];
    StageNotEarlier(c, i, k);
    if t.phase.Folding? {
      assert Done(c, t) == Done(c, s) + {k};
      if queue[0].out.isSkipped {
        LogSkipped(c, s.log, Done(c, s), s.now.skipped, k, queue[0].out.skipReason);
      } else {
        LogFolded(c, s.log, Done(c, s), s.now.skipped, k);
      }
    }
  }

  lemma NextKeepsLog(c: Config, b: Boundary, s: State, t: State)
    requires WellFormed(c) && Inv(c, b, s) && b.skipped == map[] && LogInv(c, s) && Next(c, s, t)
    ensures LogInv(c, t)
  {
    hide Outcome, MergeOf, FoldedTo, WellFormed, LogOk;
    var step :| Allowed(c, s, step, t);
    var i := |s.history| - 1;
    match step
    case Begin(k) =>
      StageNodes(c, i, k);
      forall d | d in c.nodes[k].dependencyKeys ensures d in Done(c, s) {
        DependencyEarlier(c, i, k, d);
      }
      LogBegan(c, s.log, Done(c, s), s.now.skipped, k);
    case Send(k) => assert Done(c, t) == Done(c, s);
    case Join =>
      if s.phase.errors == [] {
        var keys := SentKeys(s.phase.outputs);
        assert keys + FailedKeys(s.phase.errors) == keys;
        assert Done(c, t) == Done(c, s);
      }
    case Fold(after) => FoldLog(c, b, s, after, t);
    case EndStage =>
      assert SentKeys(s.phase.queue) == [];
      assert Done(c, t) == Done(c, s);
    case Launch => assert Done(c, t) == Done(c, s);
    case Finish => assert Done(c, t) == Done(c, s);
    case Cancel =>
  }

  lemma InitialLog(c: Config, b: Boundary)
    ensures LogInv(c, Initial(b))
  {
    assert Done(c, Initial(b)) == {};
  }

  lemma {:induction false} RunKeepsLog(c: Config, b: Boundary, run: seq<State>, i: nat)
    requires WellFormed(c) && b.skipped == map[] && IsRun(c, b, run) && i < |run|
    ensures LogInv(c, run[i])
    decreases i
  {
    hide Next, LogOk, Inv, WellFormed;
    if i == 0 {
      InitialLog(c, b);
    } else {
      RunKeepsLog(c, b, run, i - 1);
      RunKeeps(c, b, run, i - 1);
      NextKeepsLog(c, b, run[i - 1], run[i]);
    }
  }

  // ---- The theorems

  /** In every run, a node starts only after all its dependencies' outputs are stored, and its worker can read them. */
  lemma StartsAfterDependencies(c: Config, b: Boundary, run: seq<State>, i: nat)
    requires WellFormed(c) && b.skipped == map[] && IsRun(c, b, run) && i < |run|
    ensures StartsLate(c, run[i].log)
    ensures run[i].history != []
    ensures run[i].phase.Working? ==>
      forall k, d :: k in run[i].phase.running && k in c.nodes && d in c.nodes[k].dependencyKeys ==>
        d in run[i].history[|run[i].history| - 1].ctx
  {
    hide FoldedTo, Outcome, Next, WellFormed, SentBy;
    RunKeeps(c, b, run, i);
    RunKeepsLog(c, b, run, i);
    var s := run[i];
    if s.phase.Working? {
      var n := |s.history| - 1;
      forall k, d | k in s.phase.running && k in c.nodes && d in c.nodes[k].dependencyKeys ensures d in s.history[n].ctx {
        DependencyEarlier(c, n, k, d);
        HistoryKeys(c, s.history, n);
      }
    }
  }

  /** No run stores a node twice; and only stored nodes that were not skipped are overridden or merged. */
  lemma SkippedNeverMerged(c: Config, b: Boundary, run: seq<State>, i: nat, k: TypeKey)
    requires WellFormed(c) && b.skipped == map[] && IsRun(c, b, run) && i < |run|
    ensures multiset(run[i].log)[Stored(k)] <= 1
    ensures Merged(k) in run[i].log <==> Stored(k) in run[i].log && k !in run[i].now.skipped
    ensures Overridden(k) in run[i].log <==> Stored(k) in run[i].log && k !in run[i].now.skipped
  {
    RunKeepsLog(c, b, run, i);
    assert Stored(k) in run[i].log <==> multiset(run[i].log)[Stored(k)] > 0;
  }

  /** A successful run stores exactly one output per node, and nothing else. */
  lemma OneOutputPerNode(c: Config, b: Boundary, run: seq<State>, i: nat)
    requires WellFormed(c) && b.skipped == map[] && IsRun(c, b, run) && i < |run| && run[i].phase.Finished?
    ensures forall k :: multiset(run[i].log)[Stored(k)] == if k in c.nodes then 1 else 0
    ensures run[i].now.ctx.Keys == b.ctx.Keys + c.nodes.Keys
  {
    RunKeeps(c, b, run, i);
    RunKeepsLog(c, b, run, i);
    HistoryKeys(c, run[i].history, |c.stages|);
    AllEarlier(c);
  }
}
