/** One run of the DAG as a state machine: workers of a stage in parallel, then a sequential fold. */
module Execution {
  import opened Wrappers
  import opened Sequences
  import opened DependencyGraph
  import opened AnalysisInput

  datatype Status = Success | Skipped | Other(text: string)

  datatype Output = Output(status: Status, reason: string, offer: Option<Offer>, content: string)

  /** The outputs stored so far. */
  type Context = map<TypeKey, Output>

  type Body = (Context, InputValue) -> Result<Output, string>

  datatype Node = Node(
    dependencyKeys: seq<TypeKey>, allowAutoSkip: bool, isFetch: bool,
    execute: Body, read: Option<Body>, skippedOutput: (string, InputValue) -> Output)

  function Dependencies(nodes: map<TypeKey, Node>): Graph {
    map k | k in nodes :: nodes[k].dependencyKeys
  }

  // ---- One node

  datatype StageOutput = StageOutput(output: Output, isSkipped: bool, skipReason: string)

  /** The recorded reason of the first dependency that was skipped. */
  function DependencySkip(deps: seq<TypeKey>, skipped: map<TypeKey, string>): Option<string> {
    if deps == [] then None
    else if deps[0] in skipped then Some(skipped[deps[0]])
    else DependencySkip(deps[1..], skipped)
  }

  lemma {:induction false} DependencySkipFinds(deps: seq<TypeKey>, skipped: map<TypeKey, string>)
    ensures DependencySkip(deps, skipped).Some? <==> exists d :: d in deps && d in skipped
  {
    if deps != [] {
      DependencySkipFinds(deps[1..], skipped);
      assert deps == [deps[0]] + deps[1..];
      assert deps[0] in deps;
    }
  }

  predicate AutoSkips(node: Node, skipped: map<TypeKey, string>) {
    node.allowAutoSkip && DependencySkip(node.dependencyKeys, skipped).Some?
  }

  function Reported(r: Result<Output, string>): Result<StageOutput, string> {
    match r
    case Err(e) => Err(e)
    case Ok(o) => Ok(if o.status == Skipped then StageOutput(o, true, o.reason) else StageOutput(o, false, ""))
  }

  function Outcome(node: Node, ctx: Context, input: InputValue, skipped: map<TypeKey, string>): Result<StageOutput, string> {
    if AutoSkips(node, skipped) then
      var found := DependencySkip(node.dependencyKeys, skipped).value;
      var reason := if found == "" then "dependency was skipped" else found;
      Ok(StageOutput(node.skippedOutput(reason, input), true, reason))
    else if input.identity.noFetch && node.isFetch then
      if node.read.None? then Err("fetch node does not implement Read()") else Reported(node.read.value(ctx, input))
    else Reported(node.execute(ctx, input))
  }

  // ---- The state machine

  datatype Config = Config(nodes: map<TypeKey, Node>, stages: seq<seq<TypeKey>>, applyOverrides: Output -> Result<Output, string>)

  datatype Boundary = Boundary(ctx: Context, skipped: map<TypeKey, string>, input: InputValue)

  datatype Sent = Sent(key: TypeKey, out: StageOutput)

  datatype Failure = Failure(key: TypeKey, message: string)

  datatype RunError = Cancelled | NodeFailed(failure: Failure) | OverrideFailed(failure: Failure)

  datatype Phase =
    | BetweenStages
    | Working(pending: set<TypeKey>, running: set<TypeKey>, outputs: seq<Sent>, errors: seq<Failure>)
    | Folding(queue: seq<Sent>)
    | Finished
    | Stopped(error: RunError)

  datatype Event = Began(key: TypeKey) | Overridden(key: TypeKey) | Stored(key: TypeKey) | Merged(key: TypeKey)

  /** `history` holds what every stage entered so far started from; workers read only its last element. */
  datatype State = State(history: seq<Boundary>, now: Boundary, phase: Phase, log: seq<Event>)

  datatype Step = Cancel | Launch | Begin(key: TypeKey) | Send(key: TypeKey) | Join | Fold(after: InputValue) | EndStage | Finish

  ghost predicate Allowed(c: Config, s: State, step: Step, t: State) {
    && s.history != []
    && var i := |s.history| - 1;
    && var start := s.history[i];
    match step
    case Cancel =>
      && s.phase.BetweenStages? && i < |c.stages|
      && t == s.(phase := Stopped(Cancelled))
    case Launch =>
      && s.phase.BetweenStages? && i < |c.stages|
      && t == s.(phase := Working(Elements(c.stages[i]), {}, [], []))
    case Begin(k) =>
      && s.phase.Working? && k in s.phase.pending
      && t == s.(phase := s.phase.(pending := s.phase.pending - {k}, running := s.phase.running + {k}), log := s.log + [Began(k)])
    case Send(k) =>
      && s.phase.Working? && k in s.phase.running && k in c.nodes
      && t == s.(phase :=
           match Outcome(c.nodes[k], start.ctx, s.now.input, s.now.skipped)
           case Ok(out) => s.phase.(running := s.phase.running - {k}, outputs := s.phase.outputs + [Sent(k, out)])
           case Err(e) => s.phase.(running := s.phase.running - {k}, errors := s.phase.errors + [Failure(k, e)]))
    case Join =>
      && s.phase.Working? && s.phase.pending == {} && s.phase.running == {}
      && t == s.(phase := if s.phase.errors != [] then Stopped(NodeFailed(s.phase.errors[0])) else Folding(s.phase.outputs))
    case Fold(after) =>
      && s.phase.Folding? && s.phase.queue != []
      && FoldOne(c, s, s.phase.queue[0], after, t)
    case EndStage =>
      && s.phase == Folding([])
      && t == s.(history := s.history + [s.now], phase := BetweenStages)
    case Finish =>
      && s.phase.BetweenStages? && i == |c.stages|
      && t == s.(phase := Finished)
  }

  /** A skipped output is stored as it is; any other is overridden, stored and merged into the input. */
  ghost predicate FoldOne(c: Config, s: State, sent: Sent, after: InputValue, t: State)
    requires s.phase.Folding? && s.phase.queue != []
  {
    var rest := Folding(s.phase.queue[1..]);
    if sent.out.isSkipped then
      t == s.(phase := rest, log := s.log + [Stored(sent.key)],
              now := s.now.(ctx := s.now.ctx[sent.key := sent.out.output], skipped := s.now.skipped[sent.key := sent.out.skipReason]))
    else match c.applyOverrides(sent.out.output)
      case Err(e) => t == s.(phase := Stopped(OverrideFailed(Failure(sent.key, e))))
      case Ok(final) =>
        && MergeInto(s.now.input, final.offer, after)
        && t == s.(phase := rest, log := s.log + [Overridden(sent.key), Stored(sent.key), Merged(sent.key)],
                   now := s.now.(ctx := s.now.ctx[sent.key := final], input := after))
  }

  ghost predicate MergeInto(before: InputValue, offer: Option<Offer>, after: InputValue) {
    if offer.None? then after == before else MergeOf(before, {offer.value}, after)
  }

  ghost predicate Next(c: Config, s: State, t: State) {
    exists step :: Allowed(c, s, step, t)
  }

  function Initial(b: Boundary): State {
    State([b], b, BetweenStages, [])
  }

  ghost predicate IsRun(c: Config, b: Boundary, run: seq<State>) {
    && run != [] && run[0] == Initial(b)
    && forall i :: 0 < i < |run| ==> Next(c, run[i - 1], run[i])
  }

  ghost function Last(run: seq<State>): State
    requires run != []
  {
    run[|run| - 1]
  }

  lemma Extend(c: Config, b: Boundary, run: seq<State>, step: Step, t: State)
    requires IsRun(c, b, run) && Allowed(c, Last(run), step, t)
    ensures IsRun(c, b, run + [t])
  {
    hide Allowed;
    var more := run + [t];
    forall i | 0 < i < |more| ensures Next(c, more[i - 1], more[i]) {
      if i == |run| {
        assert more[i - 1] == Last(run) && more[i] == t;
      }
    }
  }

  ghost predicate WellFormed(c: Config) {
    Registered(Dependencies(c.nodes)) && Canonical(Dependencies(c.nodes), c.stages)
  }

  // ---- What a stage does as a whole

  ghost function OutcomeAt(c: Config, b: Boundary, k: TypeKey): Result<StageOutput, string>
    requires k in c.nodes
  {
    Outcome(c.nodes[k], b.ctx, b.input, b.skipped)
  }

  /** The node neither fails nor makes an override fail. */
  ghost predicate Folds(c: Config, b: Boundary, k: TypeKey) {
    && k in c.nodes && OutcomeAt(c, b, k).Ok?
    && (OutcomeAt(c, b, k).value.isSkipped || c.applyOverrides(OutcomeAt(c, b, k).value.output).Ok?)
  }

  ghost predicate SkippedAt(c: Config, b: Boundary, k: TypeKey)
    requires Folds(c, b, k)
  {
    OutcomeAt(c, b, k).value.isSkipped
  }

  ghost function StoredAt(c: Config, b: Boundary, k: TypeKey): Output
    requires Folds(c, b, k)
  {
    var out := OutcomeAt(c, b, k).value;
    if out.isSkipped then out.output else c.applyOverrides(out.output).value
  }

  ghost function OfferOf(c: Config, b: Boundary, k: TypeKey): Option<Offer> {
    if Folds(c, b, k) && !SkippedAt(c, b, k) then StoredAt(c, b, k).offer else None
  }

  ghost function Offers(c: Config, b: Boundary, done: set<TypeKey>): set<Offer> {
    set k | k in done && OfferOf(c, b, k).Some? :: OfferOf(c, b, k).value
  }

  /** From `b`, the outputs of exactly the nodes in `done` have been folded in. */
  ghost predicate FoldedTo(c: Config, b: Boundary, done: set<TypeKey>, t: Boundary) {
    && (forall k :: k in done ==> Folds(c, b, k))
    && t.ctx.Keys == b.ctx.Keys + done
    && (forall k :: k in done ==> t.ctx[k] == StoredAt(c, b, k))
    && (forall k :: k in b.ctx && k !in done ==> t.ctx[k] == b.ctx[k])
    && (forall k :: k in t.skipped <==> k in b.skipped || (k in done && SkippedAt(c, b, k)))
    && (forall k :: k in t.skipped ==>
          t.skipped[k] == if k in done && SkippedAt(c, b, k) then OutcomeAt(c, b, k).value.skipReason else b.skipped[k])
    && MergeOf(b.input, Offers(c, b, done), t.input)
  }

  ghost predicate IsHistory(c: Config, h: seq<Boundary>) {
    && 0 < |h| <= |c.stages| + 1
    && forall i :: 0 < i < |h| ==> FoldedTo(c, h[i - 1], Elements(c.stages[i - 1]), h[i])
  }
}
