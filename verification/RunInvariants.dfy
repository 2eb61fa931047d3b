/** What every step of a run keeps, and what follows for whole runs. */
module RunInvariants {
  import opened Wrappers
  import opened Sequences
  import opened DependencyGraph
  import opened AnalysisInput
  import opened Execution

  ghost function SentKeys(outputs: seq<Sent>): seq<TypeKey> {
    seq(|outputs|, i requires 0 <= i < |outputs| => outputs[i].key)
  }

  ghost function FailedKeys(errors: seq<Failure>): seq<TypeKey> {
    seq(|errors|, i requires 0 <= i < |errors| => errors[i].key)
  }

  /** Every node of the stage is exactly one of: pending, running, sent, failed. */
  ghost predicate Partition(stage: seq<TypeKey>, pending: set<TypeKey>, running: set<TypeKey>, handed: seq<TypeKey>) {
    && Distinct(handed)
    && pending !! running && pending !! Elements(handed) && running !! Elements(handed)
    && pending + running + Elements(handed) == Elements(stage)
  }

  ghost predicate SentBy(c: Config, b: Boundary, outputs: seq<Sent>) {
    forall m :: 0 <= m < |outputs| ==>
      outputs[m].key in c.nodes && OutcomeAt(c, b, outputs[m].key) == Ok(outputs[m].out)
  }

  ghost predicate FailedBy(c: Config, b: Boundary, errors: seq<Failure>) {
    forall m :: 0 <= m < |errors| ==> !Folds(c, b, errors[m].key)
  }

  /** A run that was not cancelled stopped at a node of the stage that fails, or makes an override fail. */
  ghost predicate BlamesNode(c: Config, b: Boundary, i: nat, error: RunError) {
    error.Cancelled? || (i < |c.stages| && error.failure.key in c.stages[i] && !Folds(c, b, error.failure.key))
  }

  ghost predicate QueueInv(c: Config, b: Boundary, stage: seq<TypeKey>, queue: seq<Sent>, now: Boundary) {
    && Distinct(SentKeys(queue)) && SentBy(c, b, queue)
    && Elements(SentKeys(queue)) <= Elements(stage)
    && FoldedTo(c, b, Elements(stage) - Elements(SentKeys(queue)), now)
  }

  ghost predicate Inv(c: Config, b: Boundary, s: State) {
    && IsHistory(c, s.history) && s.history[0] == b
    && var i := |s.history| - 1;
    && var start := s.history[i];
    match s.phase
    case BetweenStages => s.now == start
    case Working(pending, running, outputs, errors) =>
      && i < |c.stages| && s.now == start && SentBy(c, start, outputs) && FailedBy(c, start, errors)
      && Partition(c.stages[i], pending, running, SentKeys(outputs) + FailedKeys(errors))
    case Folding(queue) => i < |c.stages| && QueueInv(c, start, c.stages[i], queue, s.now)
    case Finished => i == |c.stages| && s.now == start
    case Stopped(error) => BlamesNode(c, start, i, error)
  }

  lemma StageNodes(c: Config, i: nat, k: TypeKey)
    requires WellFormed(c) && i < |c.stages| && k in c.stages[i]
    ensures k in c.nodes && Distinct(c.stages[i])
  {
    assert StageAt(Dependencies(c.nodes), i, c.stages[i]);
  }

  lemma AppendHanded(stage: seq<TypeKey>, pending: set<TypeKey>, running: set<TypeKey>, handed: seq<TypeKey>, next: seq<TypeKey>, k: TypeKey)
    requires Partition(stage, pending, running, handed) && k in running
    requires multiset(next) == multiset(handed) + multiset{k}
    ensures Partition(stage, pending, running - {k}, next)
  {
    forall x ensures x in next <==> x in handed || x == k {
      assert x in next <==> x in multiset(next);
      assert x in handed <==> x in multiset(handed);
    }
    DistinctCount(handed);
    CountDistinct(next);
    assert Elements(next) == Elements(handed) + {k};
  }

  lemma CountDistinct(s: seq<TypeKey>)
    ensures (forall k :: multiset(s)[k] <= 1) ==> Distinct(s)
  {
    if i, j :| 0 <= i < j < |s| && s[i] == s[j] {
      assert s == s[..i] + [s[i]] + s[i + 1..j] + [s[j]] + s[j + 1..];
      assert multiset(s)[s[i]] >= 2;
    }
  }

  lemma SendKeeps(c: Config, b: Boundary, s: State, k: TypeKey, t: State)
    requires WellFormed(c) && Inv(c, b, s) && Allowed(c, s, Send(k), t)
    ensures Inv(c, b, t)
  {
    hide Outcome, MergeOf, IsHistory, FoldedTo, Partition, WellFormed;
    var w, v := s.phase, t.phase;
    var i := |s.history| - 1;
    var handed, next := SentKeys(w.outputs) + FailedKeys(w.errors), SentKeys(v.outputs) + FailedKeys(v.errors);
    if OutcomeAt(c, s.now, k).Ok? {
      assert SentKeys(v.outputs) == SentKeys(w.outputs) + [k];
    } else {
      assert FailedKeys(v.errors) == FailedKeys(w.errors) + [k];
    }
    AppendHanded(c.stages[i], w.pending, w.running, handed, next, k);
  }

  lemma JoinKeeps(c: Config, b: Boundary, s: State, t: State)
    requires WellFormed(c) && Inv(c, b, s) && Allowed(c, s, Join, t)
    ensures Inv(c, b, t)
  {
    var i := |s.history| - 1;
    if s.phase.errors == [] {
      var keys := SentKeys(s.phase.outputs);
      assert keys + FailedKeys(s.phase.errors) == keys;
      assert Elements(c.stages[i]) - Elements(keys) == {};
      assert Offers(c, s.history[i], {}) == {};
      MergeNothing(s.history[i].input);
    } else {
      var keys := FailedKeys(s.phase.errors);
      assert keys[0] in SentKeys(s.phase.outputs) + keys;
    }
  }

  lemma OffersNext(c: Config, b: Boundary, done: set<TypeKey>, k: TypeKey)
    ensures var offer := OfferOf(c, b, k);
      Offers(c, b, done + {k}) == if offer.Some? then Offers(c, b, done) + {offer.value} else Offers(c, b, done)
  {
    hide OfferOf;
  }

  lemma FoldStep(c: Config, b: Boundary, done: set<TypeKey>, k: TypeKey, u: Boundary, t: Boundary)
    requires FoldedTo(c, b, done, u) && k !in done && Folds(c, b, k)
    requires t.ctx == u.ctx[k := StoredAt(c, b, k)]
    requires t.skipped == if SkippedAt(c, b, k) then u.skipped[k := OutcomeAt(c, b, k).value.skipReason] else u.skipped
    requires MergeInto(u.input, OfferOf(c, b, k), t.input)
    ensures FoldedTo(c, b, done + {k}, t)
  {
    hide Outcome, OutcomeAt, MergeOf, Offers, OfferOf;
    OffersNext(c, b, done, k);
    var offer := OfferOf(c, b, k);
    if offer.Some? {
      MergeOfAppend(b.input, Offers(c, b, done), u.input, offer.value, t.input);
    }
  }

  lemma FoldKeeps(c: Config, b: Boundary, s: State, after: InputValue, t: State)
    requires WellFormed(c) && Inv(c, b, s) && Allowed(c, s, Fold(after), t)
    ensures Inv(c, b, t)
  {
    hide Outcome, MergeOf, IsHistory, FoldedTo, WellFormed;
    var i := |s.history| - 1;
    var start, queue := s.history[i], s.phase.queue;
    var keys, sent := SentKeys(queue), queue[0];
    var done := Elements(c.stages[i]) - Elements(keys);
    assert keys[0] == sent.key && keys[0] in keys;
    assert SentKeys(queue[1..]) == keys[1..];
    assert keys == [keys[0]] + keys[1..];
    assert Elements(keys) == {sent.key} + Elements(keys[1..]);
    if t.phase.Folding? {
      FoldStep(c, start, done, sent.key, s.now, t.now);
      assert done + {sent.key} == Elements(c.stages[i]) - Elements(keys[1..]);
    } else {
      assert sent.key in Elements(keys) && !Folds(c, start, sent.key);
    }
  }

  lemma EndStageKeeps(c: Config, b: Boundary, s: State, t: State)
    requires Inv(c, b, s) && Allowed(c, s, EndStage, t)
    ensures Inv(c, b, t)
  {
    hide FoldedTo;
    var i := |s.history| - 1;
    assert SentKeys([]) == [];
    assert Elements(c.stages[i]) - Elements(SentKeys(s.phase.queue)) == Elements(c.stages[i]);
  }

  lemma NextKeeps(c: Config, b: Boundary, s: State, t: State)
    requires WellFormed(c) && Inv(c, b, s) && Next(c, s, t)
    ensures Inv(c, b, t)
  {
    hide Outcome, MergeOf, IsHistory, FoldedTo, WellFormed;
    var step :| Allowed(c, s, step, t);
    match step
    case Launch =>
      assert SentKeys([]) + FailedKeys([]) == [];
      LaunchDistinct(c, |s.history| - 1);
    case Send(k) => SendKeeps(c, b, s, k, t);
    case Join => JoinKeeps(c, b, s, t);
    case Fold(after) => FoldKeeps(c, b, s, after, t);
    case EndStage => EndStageKeeps(c, b, s, t);
    case _ =>
  }

  lemma LaunchDistinct(c: Config, i: nat)
    requires WellFormed(c) && i < |c.stages|
    ensures Partition(c.stages[i], Elements(c.stages[i]), {}, [])
  {}

  lemma {:induction false} RunKeeps(c: Config, b: Boundary, run: seq<State>, i: nat)
    requires WellFormed(c) && IsRun(c, b, run) && i < |run|
    ensures Inv(c, b, run[i])
    decreases i
  {
    if i > 0 {
      RunKeeps(c, b, run, i - 1);
      NextKeeps(c, b, run[i - 1], run[i]);
    }
  }

  /** The channels hold one slot per node of the stage: a worker that is about to send finds a free one. */
  lemma SendsNeverBlock(c: Config, b: Boundary, run: seq<State>, i: nat)
    requires WellFormed(c) && IsRun(c, b, run) && i < |run| && run[i].phase.Working?
    ensures var s, w := run[i], run[i].phase;
      && 0 < |s.history| <= |c.stages|
      && var capacity := |c.stages[|s.history| - 1]|;
      && |w.outputs| + |w.errors| + |w.pending| + |w.running| == capacity
      && (w.running != {} ==> |w.outputs| < capacity && |w.errors| < capacity)
  {
    RunKeeps(c, b, run, i);
    var s, w := run[i], run[i].phase;
    var stage, handed := c.stages[|s.history| - 1], SentKeys(w.outputs) + FailedKeys(w.errors);
    assert StageAt(Dependencies(c.nodes), |s.history| - 1, stage);
    DistinctSize(stage);
    DistinctSize(handed);
    assert |w.pending + w.running + Elements(handed)| == |w.pending| + |w.running| + |Elements(handed)|;
  }
}
