/** Every order in which the nodes of a stage can finish is that of some run, so a disagreement of siblings shows. */
module StageRuns {
  import opened Sequences
  import opened DependencyGraph
  import opened AnalysisInput
  import opened Execution
  import opened RunInvariants
  import opened RunOutcome

  /** The run can execute its next stage, and every node of the stage succeeds. */
  ghost predicate AtStage(c: Config, b: Boundary, r: seq<State>) {
    && WellFormed(c) && IsRun(c, b, r) && r != []
    && Last(r).phase.BetweenStages? && 0 < |Last(r).history| <= |c.stages|
    && forall k :: k in StageOf(c, r) ==> Folds(c, Last(r).now, k)
  }

  ghost function StageOf(c: Config, r: seq<State>): set<TypeKey>
    requires r != [] && 0 < |Last(r).history| <= |c.stages|
  {
    Elements(c.stages[|Last(r).history| - 1])
  }

  /** The run `q` is `r` and one whole stage more. */
  ghost predicate OneStageOn(c: Config, b: Boundary, r: seq<State>, q: seq<State>)
    requires r != []
  {
    && IsRun(c, b, q) && r <= q
    && Last(q).phase.BetweenStages? && |Last(q).history| == |Last(r).history| + 1
  }

  // ---- The workers finish in a given order

  ghost function SentFor(c: Config, b: Boundary, k: TypeKey): Sent
    requires Folds(c, b, k)
  {
    Sent(k, OutcomeAt(c, b, k).value)
  }

  ghost function SentInOrder(c: Config, b: Boundary, order: seq<TypeKey>): (queue: seq<Sent>)
    requires forall k :: k in order ==> Folds(c, b, k)
    ensures |queue| == |order|
  {
    seq(|order|, j requires 0 <= j < |order| && order[j] in order => SentFor(c, b, order[j]))
  }

  /** One worker begins and sends, and nothing else happens meanwhile. */
  lemma BeginAndSend(c: Config, b: Boundary, s: State, k: TypeKey) returns (began: State, sent: State)
    requires s.history != [] && s.history[|s.history| - 1] == s.now == b && Folds(c, b, k)
    requires s.phase.Working? && k in s.phase.pending && s.phase.running == {}
    ensures Allowed(c, s, Begin(k), began) && Allowed(c, began, Send(k), sent)
    ensures sent.history == s.history && sent.now == s.now
    ensures sent.phase == Working(s.phase.pending - {k}, {}, s.phase.outputs + [SentFor(c, b, k)], s.phase.errors)
  {
    hide Outcome;
    var pending := s.phase.pending - {k};
    began := s.(phase := s.phase.(pending := pending, running := {k}), log := s.log + [Began(k)]);
    assert {} + {k} == {k} && {k} - {k} == {};
    sent := began.(phase := Working(pending, {}, s.phase.outputs + [SentFor(c, b, k)], s.phase.errors));
  }

  lemma OneMoreSent(c: Config, b: Boundary, stage: set<TypeKey>, order: seq<TypeKey>, k: TypeKey)
    requires Folds(c, b, k) && forall j :: j in order ==> Folds(c, b, j)
    ensures forall j :: j in order + [k] ==> Folds(c, b, j)
    ensures SentInOrder(c, b, order + [k]) == SentInOrder(c, b, order) + [SentFor(c, b, k)]
    ensures stage - Elements(order + [k]) == stage - Elements(order) - {k}
  {
    hide Folds, SentFor;
  }

  /** The workers of `order` have sent, in that order; those of the other nodes of the stage have not begun. */
  ghost predicate Worked(c: Config, b: Boundary, q: seq<State>, start: Boundary, stage: set<TypeKey>, order: seq<TypeKey>) {
    && (forall k :: k in order ==> Folds(c, start, k))
    && q != [] && IsRun(c, b, q) && Last(q).history != []
    && Last(q).history[|Last(q).history| - 1] == Last(q).now == start
    && Last(q).phase == Working(stage - Elements(order), {}, SentInOrder(c, start, order), [])
  }

  lemma OneWorker(c: Config, b: Boundary, run: seq<State>, start: Boundary, stage: set<TypeKey>, order: seq<TypeKey>, k: TypeKey)
    returns (q: seq<State>)
    requires Worked(c, b, run, start, stage, order) && k !in order && k in stage && Folds(c, start, k)
    ensures Worked(c, b, q, start, stage, order + [k]) && run <= q && Last(q).history == Last(run).history
  {
    hide IsRun, Folds, Allowed, SentFor, SentInOrder, Outcome;
    var began, sent := BeginAndSend(c, start, Last(run), k);
    Extend(c, b, run, Begin(k), began);
    Extend(c, b, run + [began], Send(k), sent);
    q := run + [began] + [sent];
    OneMoreSent(c, start, stage, order, k);
  }

  lemma {:induction false} AllWorkers(c: Config, b: Boundary, run: seq<State>, start: Boundary, stage: set<TypeKey>, order: seq<TypeKey>)
    returns (q: seq<State>)
    requires Worked(c, b, run, start, stage, []) && PairwiseDistinct(order) && Elements(order) <= stage
    requires forall k :: k in stage ==> Folds(c, start, k)
    ensures Worked(c, b, q, start, stage, order) && run <= q && Last(q).history == Last(run).history
  {
    hide IsRun, Folds, SentInOrder;
    if order == [] {
      q := run;
    } else {
      var n := |order| - 1;
      var init, k := order[..n], order[n];
      assert k in Elements(order) && Elements(init) <= Elements(order);
      var before := AllWorkers(c, b, run, start, stage, init);
      q := OneWorker(c, b, before, start, stage, init, k);
      assert init + [k] == order;
    }
  }

  lemma LaunchStage(c: Config, b: Boundary, r: seq<State>) returns (q: seq<State>)
    requires AtStage(c, b, r)
    ensures Worked(c, b, q, Last(r).now, StageOf(c, r), []) && r <= q && Last(q).history == Last(r).history
  {
    RunKeeps(c, b, r, |r| - 1);
    hide IsRun, WellFormed, IsHistory, Folds;
    var launched := Last(r).(phase := Working(StageOf(c, r), {}, [], []));
    Extend(c, b, r, Launch, launched);
    q := r + [launched];
    assert StageOf(c, r) - Elements([]) == StageOf(c, r);
    assert SentInOrder(c, Last(r).now, []) == [];
  }

  // ---- Their outputs are folded in that order

  ghost function OffersInOrder(c: Config, b: Boundary, order: seq<TypeKey>): seq<Offer> {
    if order == [] then []
    else
      var offer := OfferOf(c, b, order[|order| - 1]);
      OffersInOrder(c, b, order[..|order| - 1]) + if offer.Some? then [offer.value] else []
  }

  lemma MergedNext(base: InputValue, offers: seq<Offer>, o: Offer)
    ensures MergedInOrder(base, offers + [o]) == AnalysisInput.Merged(MergedInOrder(base, offers), o)
  {
    assert (offers + [o])[..|offers|] == offers;
  }

  lemma FoldSkipped(c: Config, b: Boundary, s: State, k: TypeKey) returns (t: State)
    requires Folds(c, b, k) && SkippedAt(c, b, k)
    requires s.history != [] && s.phase.Folding? && s.phase.queue != [] && s.phase.queue[0] == SentFor(c, b, k)
    ensures Allowed(c, s, Fold(t.now.input), t)
    ensures t.history == s.history && t.phase == Folding(s.phase.queue[1..]) && t.now.input == s.now.input
  {
    hide OutcomeAt;
    var sent := s.phase.queue[0];
    t := s.(phase := Folding(s.phase.queue[1..]), log := s.log + [Stored(k)],
            now := s.now.(ctx := s.now.ctx[k := sent.out.output], skipped := s.now.skipped[k := sent.out.skipReason]));
  }

  lemma FoldStored(c: Config, b: Boundary, s: State, k: TypeKey, after: InputValue) returns (t: State)
    requires Folds(c, b, k) && !SkippedAt(c, b, k) && MergeInto(s.now.input, OfferOf(c, b, k), after)
    requires s.history != [] && s.phase.Folding? && s.phase.queue != [] && s.phase.queue[0] == SentFor(c, b, k)
    ensures Allowed(c, s, Fold(after), t)
    ensures t.history == s.history && t.phase == Folding(s.phase.queue[1..]) && t.now.input == after
  {
    hide OutcomeAt, MergeInto;
    t := s.(phase := Folding(s.phase.queue[1..]), log := s.log + [Overridden(k), Stored(k), Event.Merged(k)],
            now := s.now.(ctx := s.now.ctx[k := StoredAt(c, b, k)], input := after));
  }

  /** Folding one output of a node that succeeds. */
  lemma FoldOneNode(c: Config, b: Boundary, s: State, k: TypeKey) returns (t: State)
    requires Folds(c, b, k) && s.history != [] && s.phase.Folding? && s.phase.queue != [] && s.phase.queue[0] == SentFor(c, b, k)
    ensures Allowed(c, s, Fold(t.now.input), t)
    ensures t.history == s.history && t.phase == Folding(s.phase.queue[1..])
    ensures var offer := OfferOf(c, b, k);
      t.now.input == if offer.Some? then AnalysisInput.Merged(s.now.input, offer.value) else s.now.input
  {
    hide OutcomeAt, MergeOf, Allowed, StoredAt, SentFor;
    if SkippedAt(c, b, k) {
      t := FoldSkipped(c, b, s, k);
    } else {
      var offer := OfferOf(c, b, k);
      var after := if offer.Some? then AnalysisInput.Merged(s.now.input, offer.value) else s.now.input;
      t := FoldStored(c, b, s, k, after);
    }
  }

  /** The run `q` goes on from `r` without having reached the end of its stage. */
  ghost predicate Underway(c: Config, b: Boundary, r: seq<State>, q: seq<State>) {
    r != [] && q != [] && IsRun(c, b, q) && r <= q && Last(q).history == Last(r).history
  }

  lemma FoldNext(c: Config, b: Boundary, r: seq<State>, run: seq<State>, order: seq<TypeKey>, n: nat) returns (q: seq<State>)
    requires AtStage(c, b, r) && n < |order| && forall k :: k in order ==> Folds(c, Last(r).now, k)
    requires Underway(c, b, r, run) && Last(run).phase == Folding(SentInOrder(c, Last(r).now, order)[n..])
    requires Last(run).now.input == MergedInOrder(Last(r).now.input, OffersInOrder(c, Last(r).now, order[..n]))
    ensures Underway(c, b, r, q) && Last(q).phase == Folding(SentInOrder(c, Last(r).now, order)[n + 1..])
    ensures Last(q).now.input == MergedInOrder(Last(r).now.input, OffersInOrder(c, Last(r).now, order[..n + 1]))
  {
    hide IsRun, WellFormed, Folds, OfferOf, MergedInOrder, Allowed, SentFor;
    var s, start, k := Last(run), Last(r).now, order[n];
    assert k in order;
    assert s.phase.queue[0] == SentInOrder(c, start, order)[n];
    assert s.phase.queue[1..] == SentInOrder(c, start, order)[n + 1..];
    var t := FoldOneNode(c, start, s, k);
    Extend(c, b, run, Fold(t.now.input), t);
    q := run + [t];
    var before, offer := OffersInOrder(c, start, order[..n]), OfferOf(c, start, k);
    assert order[..n + 1][..n] == order[..n];
    if offer.Some? {
      MergedNext(start.input, before, offer.value);
    } else {
      assert before + [] == before;
    }
  }

  lemma StageInOrder(c: Config, b: Boundary, r: seq<State>, order: seq<TypeKey>) returns (q: seq<State>)
    requires AtStage(c, b, r) && PairwiseDistinct(order) && Elements(order) == StageOf(c, r)
    ensures OneStageOn(c, b, r, q)
    ensures Last(q).now.input == MergedInOrder(Last(r).now.input, OffersInOrder(c, Last(r).now, order))
  {
    hide IsRun, WellFormed, Folds, SentInOrder, MergedInOrder;
    var start := Last(r).now;
    var launched := LaunchStage(c, b, r);
    var worked := AllWorkers(c, b, launched, start, StageOf(c, r), order);
    var queue := SentInOrder(c, start, order);
    var joined := Last(worked).(phase := Folding(queue));
    assert StageOf(c, r) - Elements(order) == {};
    Extend(c, b, worked, Join, joined);
    q := worked + [joined];
    assert queue[0..] == queue && order[..0] == [];
    NothingMerged(start.input);
    for n := 0 to |order|
      invariant Underway(c, b, r, q) && Last(q).phase == Folding(queue[n..])
      invariant Last(q).now.input == MergedInOrder(start.input, OffersInOrder(c, start, order[..n]))
    {
      q := FoldNext(c, b, r, q, order, n);
    }
    assert queue[|order|..] == [] && order[..|order|] == order;
    var s := Last(q);
    var ended := s.(history := s.history + [s.now], phase := BetweenStages);
    Extend(c, b, q, EndStage, ended);
    q := q + [ended];
  }

  lemma NothingMerged(base: InputValue)
    ensures MergedInOrder(base, []) == base
  {}

  // ---- Siblings that disagree

  lemma {:induction false} OffersStart(c: Config, b: Boundary, k: TypeKey, rest: seq<TypeKey>)
    requires OfferOf(c, b, k).Some?
    ensures OffersInOrder(c, b, [k] + rest) == [OfferOf(c, b, k).value] + OffersInOrder(c, b, rest)
  {
    hide OfferOf;
    var order := [k] + rest;
    if rest == [] {
      assert order[..0] == [];
    } else {
      var n := |rest| - 1;
      OffersStart(c, b, k, rest[..n]);
      assert order[..|order| - 1] == [k] + rest[..n];
    }
  }

  /** A run of the stage in which one of its offering nodes is folded first. */
  lemma StageStartingWith(c: Config, b: Boundary, r: seq<State>, k: TypeKey) returns (q: seq<State>, rest: seq<Offer>)
    requires AtStage(c, b, r) && k in StageOf(c, r) && OfferOf(c, Last(r).now, k).Some?
    ensures OneStageOn(c, b, r, q)
    ensures Last(q).now.input == MergedInOrder(Last(r).now.input, [OfferOf(c, Last(r).now, k).value] + rest)
  {
    hide IsRun, WellFormed, Folds, OfferOf, MergedInOrder;
    var others := StageOf(c, r) - {k};
    var order := [k] + Listed(others);
    ListsSet(Listed(others), others);
    assert Elements(order) == StageOf(c, r);
    q := StageInOrder(c, b, r, order);
    OffersStart(c, Last(r).now, k, Listed(others));
    rest := OffersInOrder(c, Last(r).now, Listed(others));
  }

  /** Offers that disagree come from two nodes of the stage that fill the same absent field differently. */
  lemma DisagreeingNodes(c: Config, b: Boundary, stage: set<TypeKey>) returns (k: TypeKey, l: TypeKey)
    requires !OffersAgree(b.input, Offers(c, b, stage))
    ensures k in stage && l in stage && OfferOf(c, b, k).Some? && OfferOf(c, b, l).Some?
    ensures var x, y, base := OfferOf(c, b, k).value, OfferOf(c, b, l).value, b.input;
      || (!Present(base.sourceURL) && Present(x.sourceURL) && Present(y.sourceURL) && x.sourceURL != y.sourceURL)
      || (!Present(base.sourceDirectory) && Present(x.sourceDirectory) && Present(y.sourceDirectory)
          && x.sourceDirectory != y.sourceDirectory)
  {
    hide OfferOf;
    var offers := Offers(c, b, stage);
    var x, y :| x in offers && y in offers
      && ((!Present(b.input.sourceURL) && Present(x.sourceURL) && Present(y.sourceURL) && x.sourceURL != y.sourceURL)
          || (!Present(b.input.sourceDirectory) && Present(x.sourceDirectory) && Present(y.sourceDirectory)
              && x.sourceDirectory != y.sourceDirectory));
    k :| k in stage && OfferOf(c, b, k).Some? && OfferOf(c, b, k).value == x;
    l :| l in stage && OfferOf(c, b, l).Some? && OfferOf(c, b, l).value == y;
  }

  /** From a stage whose siblings disagree, two runs come out with different inputs. */
  lemma DisagreementShows(c: Config, b: Boundary, r: seq<State>) returns (p: seq<State>, q: seq<State>)
    requires AtStage(c, b, r) && !OffersAgree(Last(r).now.input, Offers(c, Last(r).now, StageOf(c, r)))
    ensures OneStageOn(c, b, r, p) && OneStageOn(c, b, r, q) && !SameBoundary(Last(p).now, Last(q).now)
  {
    hide IsRun, WellFormed, Folds, OfferOf, MergedInOrder, OffersAgree;
    var start := Last(r).now;
    var k, l := DisagreeingNodes(c, start, StageOf(c, r));
    var x, y := OfferOf(c, start, k).value, OfferOf(c, start, l).value;
    var s, t;
    p, s := StageStartingWith(c, b, r, k);
    q, t := StageStartingWith(c, b, r, l);
    FirstOfferWins(start.input, x, s);
    FirstOfferWins(start.input, y, t);
    DifferentInputs(Last(p).now.input, Last(q).now.input);
  }

  /** Steps only ever add to the boundaries recorded so far. */
  lemma {:induction false} HistoryGrows(c: Config, b: Boundary, run: seq<State>, m: nat, n: nat)
    requires IsRun(c, b, run) && m <= n < |run|
    ensures run[m].history <= run[n].history
    decreases n
  {
    hide Outcome, MergeOf;
    if m < n {
      HistoryGrows(c, b, run, m, n - 1);
      assert Next(c, run[n - 1], run[n]);
    }
  }

  lemma OneStageFolds(c: Config, b: Boundary, r: seq<State>, q: seq<State>)
    requires AtStage(c, b, r) && OneStageOn(c, b, r, q)
    ensures FoldedTo(c, Last(r).now, StageOf(c, r), Last(q).now)
  {
    hide FoldedTo, IsRun, WellFormed, Folds;
    RunKeeps(c, b, r, |r| - 1);
    RunKeeps(c, b, q, |q| - 1);
    HistoryGrows(c, b, q, |r| - 1, |q| - 1);
    var i := |Last(r).history| - 1;
    assert Last(q).history[i] == Last(r).now;
    assert FoldedTo(c, Last(q).history[i + 1 - 1], Elements(c.stages[i]), Last(q).history[i + 1]);
  }

  /** A stage whose nodes all succeed has one possible result exactly when their offers agree. */
  lemma StageDeterminateIffOffersAgree(c: Config, b: Boundary, r: seq<State>)
    requires AtStage(c, b, r) && OrderBlind(c.nodes)
    ensures OffersAgree(Last(r).now.input, Offers(c, Last(r).now, StageOf(c, r))) <==>
      forall p, q :: OneStageOn(c, b, r, p) && OneStageOn(c, b, r, q) ==> SameBoundary(Last(p).now, Last(q).now)
  {
    hide IsRun, WellFormed, Folds, OffersAgree, OrderBlind, SameBoundary, OfferOf;
    var start, stage := Last(r).now, StageOf(c, r);
    if OffersAgree(start.input, Offers(c, start, stage)) {
      SameAsItself(start);
      FoldsRegistered(c, start, stage);
      forall p, q | OneStageOn(c, b, r, p) && OneStageOn(c, b, r, q) ensures SameBoundary(Last(p).now, Last(q).now) {
        OneStageFolds(c, b, r, p);
        OneStageFolds(c, b, r, q);
        FoldedSame(c, start, start, stage, Last(p).now, Last(q).now);
      }
    } else {
      var p, q := DisagreementShows(c, b, r);
    }
  }
}
