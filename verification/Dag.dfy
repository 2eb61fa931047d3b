/** The DAG object: its node registry, its stages, and one execution of it. */
module Dag {
  import opened Wrappers
  import opened Sequences
  import opened DependencyGraph
  import opened AnalysisInput
  import opened Execution
  import opened RunInvariants
  import Sorter = TopologicalSort

  datatype ExecuteError = SortFailed(sort: Sorter.SortError) | RunFailed(run: RunError)

  /** Runs one node against the stage's snapshot. */
  method ExecuteNode(node: Node, ctx: Context, input: InputValue, skipped: map<TypeKey, string>)
    returns (r: Result<StageOutput, string>)
    ensures r == Outcome(node, ctx, input, skipped)
  {
    var hasDependencySkipped, dependencyReason := false, "";
    var deps := node.dependencyKeys;
    for i := 0 to |deps|
      invariant DependencySkip(deps, skipped) == DependencySkip(deps[i..], skipped)
      invariant !hasDependencySkipped
    {
      if deps[i] in skipped {
        hasDependencySkipped, dependencyReason := true, skipped[deps[i]];
        break;
      }
      assert deps[i..][1..] == deps[i + 1..];
    }
    assert hasDependencySkipped <==> DependencySkip(deps, skipped).Some?;
    if hasDependencySkipped && node.allowAutoSkip {
      if dependencyReason == "" {
        dependencyReason := "dependency was skipped";
      }
      return Ok(StageOutput(node.skippedOutput(dependencyReason, input), true, dependencyReason));
    }
    var produced: Result<Output, string>;
    if input.identity.noFetch && node.isFetch {
      if node.read.None? {
        return Err("fetch node does not implement Read()");
      }
      produced := node.read.value(ctx, input);
    } else {
      produced := node.execute(ctx, input);
    }
    if produced.Err? {
      return Err(produced.error);
    }
    if produced.value.status == Skipped {
      return Ok(StageOutput(produced.value, true, produced.value.reason));
    }
    return Ok(StageOutput(produced.value, false, ""));
  }

  /** Between stages the latest recorded boundary is the present one. */
  lemma BoundaryRecorded(c: Config, b: Boundary, run: seq<State>)
    requires WellFormed(c) && IsRun(c, b, run) && Last(run).phase.BetweenStages?
    ensures var s := Last(run); s.history != [] && s.history[|s.history| - 1] == s.now
  {
    RunKeeps(c, b, run, |run| - 1);
  }

  lemma CancelRun(c: Config, b: Boundary, run: seq<State>) returns (t: State)
    requires IsRun(c, b, run) && Last(run).phase.BetweenStages? && 0 < |Last(run).history| <= |c.stages|
    ensures t == Last(run).(phase := Stopped(Cancelled)) && IsRun(c, b, run + [t])
  {
    t := Last(run).(phase := Stopped(Cancelled));
    Extend(c, b, run, Cancel, t);
  }

  lemma FinishRun(c: Config, b: Boundary, run: seq<State>) returns (t: State)
    requires IsRun(c, b, run) && Last(run).phase.BetweenStages? && |Last(run).history| == |c.stages| + 1
    ensures t == Last(run).(phase := Finished) && IsRun(c, b, run + [t])
  {
    t := Last(run).(phase := Finished);
    Extend(c, b, run, Finish, t);
  }

  class Dag {
    var nodes: map<TypeKey, Node>

    constructor ()
      ensures nodes == map[]
    {
      nodes := map[];
    }

    /** Registers a node under its type; a second node of the same type is refused. */
    method AddNode(key: TypeKey, node: Node) returns (added: bool)
      modifies this
      ensures added == (key !in old(nodes))
      ensures nodes == if added then old(nodes)[key := node] else old(nodes)
    {
      if key in nodes {
        return false;
      }
      nodes := nodes[key := node];
      return true;
    }

    /**
     * `cancelled(i)` says whether the context has been cancelled when stage `i` is about to start.
     * Workers of a stage finish in an arbitrary order.
     */
    method Execute(ctx0: Context, input0: InputValue, applyOverrides: Output -> Result<Output, string>, cancelled: nat -> bool)
      returns (ctx: Context, out: InputValue, err: Option<ExecuteError>, ghost c: Config, ghost run: seq<State>)
      ensures err.Some? && err.value.SortFailed? <==> !Registered(Dependencies(nodes)) || HasCycle(Dependencies(nodes))
      ensures err.Some? && err.value.SortFailed? ==> ctx == ctx0 && out == input0
      ensures !(err.Some? && err.value.SortFailed?) ==>
        && WellFormed(c) && c.nodes == nodes && c.applyOverrides == applyOverrides
        && IsRun(c, Boundary(ctx0, map[], input0), run)
        && ctx == Last(run).now.ctx && out == Last(run).now.input
        && Last(run).phase == if err.None? then Finished else Stopped(err.value.run)
    {
      var sorted := Sorter.TopologicalSort(Dependencies(nodes));
      ctx, out, c, run := ctx0, input0, Config(nodes, [], applyOverrides), [];
      if sorted.Err? {
        return ctx0, input0, Some(SortFailed(sorted.error)), c, run;
      }
      var stages := sorted.value;
      c := Config(nodes, stages, applyOverrides);
      ghost var b := Boundary(ctx0, map[], input0);
      run := [Initial(b)];
      assert WellFormed(c) && IsRun(c, b, run);
      hide IsRun, WellFormed;
      var input := new Input(input0);
      var skipped: map<TypeKey, string> := map[];
      for i := 0 to |stages|
        invariant c == Config(nodes, stages, applyOverrides) && nodes == old(nodes)
        invariant fresh(input)
        invariant IsRun(c, b, run) && |Last(run).history| == i + 1
        invariant Last(run).phase.BetweenStages? && Last(run).now == Boundary(ctx, skipped, input.Value())
      {
        BoundaryRecorded(c, b, run);
        if cancelled(i) {
          ghost var stopped := CancelRun(c, b, run);
          run := run + [stopped];
          return ctx, input.Value(), Some(RunFailed(Cancelled)), c, run;
        }
        var outputs: seq<Sent>, errors: seq<Failure>;
        outputs, errors, run := RunStage(c, b, run, i, stages[i], ctx, input.Value(), skipped);
        if |errors| > 0 {
          return ctx, input.Value(), Some(RunFailed(NodeFailed(errors[0]))), c, run;
        }
        var failure: Option<Failure>;
        ctx, skipped, failure, run := FoldStage(c, b, run, applyOverrides, outputs, ctx, input, skipped);
        if failure.Some? {
          return ctx, input.Value(), Some(RunFailed(OverrideFailed(failure.value))), c, run;
        }
      }
      ghost var finished := FinishRun(c, b, run);
      run := run + [finished];
      return ctx, input.Value(), None, c, run;
    }

    /** Starts a worker for every node of the stage and waits for all of them. */
    method RunStage(ghost c: Config, ghost b: Boundary, ghost before: seq<State>, ghost i: nat,
                    stage: seq<TypeKey>, ctx: Context, input: InputValue, skipped: map<TypeKey, string>)
      returns (outputs: seq<Sent>, errors: seq<Failure>, ghost run: seq<State>)
      requires c.nodes == nodes && WellFormed(c) && i < |c.stages| && stage == c.stages[i]
      requires IsRun(c, b, before) && |Last(before).history| == i + 1 && Last(before).phase.BetweenStages?
      requires Last(before).history[i] == Last(before).now == Boundary(ctx, skipped, input)
      ensures IsRun(c, b, run) && Last(run).history == Last(before).history && Last(run).now == Last(before).now
      ensures Last(run).phase == if errors == [] then Folding(outputs) else Stopped(NodeFailed(errors[0]))
    {
      assert before != [];
      hide IsRun, WellFormed, AutoSkips;
      outputs, errors := [], [];
      var pending := set k | k in stage;
      ghost var launched := Last(before).(phase := Working(Elements(stage), {}, [], []));
      Extend(c, b, before, Launch, launched);
      run := before + [launched];
      while pending != {}
        invariant pending <= Elements(stage)
        invariant run != [] && IsRun(c, b, run)
        invariant Last(run).history == Last(before).history && Last(run).now == Last(before).now
        invariant Last(run).phase == Working(pending, {}, outputs, errors)
      {
        var key :| key in pending;
        StageNodes(c, i, key);
        ghost var began := Last(run).(phase := Working(pending - {key}, {key}, outputs, errors), log := Last(run).log + [Began(key)]);
        assert {} + {key} == {key};
        Extend(c, b, run, Begin(key), began);
        run := run + [began];
        var r := ExecuteNode(nodes[key], ctx, input, skipped);
        match r {
          case Err(e) => errors := errors + [Failure(key, e)];
          case Ok(o) => outputs := outputs + [Sent(key, o)];
        }
        pending := pending - {key};
        ghost var sent := began.(phase := Working(pending, {}, outputs, errors));
        assert {key} - {key} == {};
        Extend(c, b, run, Send(key), sent);
        run := run + [sent];
      }
      ghost var joined := Last(run).(phase := if errors != [] then Stopped(NodeFailed(errors[0])) else Folding(outputs));
      Extend(c, b, run, Join, joined);
      run := run + [joined];
    }

    /** Folds the stage's outputs, in the order the channel delivers them. */
    method FoldStage(ghost c: Config, ghost b: Boundary, ghost before: seq<State>,
                     applyOverrides: Output -> Result<Output, string>, outputs: seq<Sent>, ctx0: Context, input: Input, skipped0: map<TypeKey, string>)
      returns (ctx: Context, skipped: map<TypeKey, string>, failure: Option<Failure>, ghost run: seq<State>)
      requires c.applyOverrides == applyOverrides
      requires IsRun(c, b, before) && Last(before).history != [] && Last(before).phase == Folding(outputs)
      requires Last(before).now == Boundary(ctx0, skipped0, input.Value())
      modifies input
      ensures IsRun(c, b, run) && Last(run).now == Boundary(ctx, skipped, input.Value())
      ensures failure.Some? ==> Last(run).phase == Stopped(OverrideFailed(failure.value))
      ensures failure.None? ==>
        Last(run).phase == BetweenStages && Last(run).history == Last(before).history + [Last(run).now]
    {
      assert before != [];
      hide IsRun;
      ctx, skipped, failure, run := ctx0, skipped0, None, before;
      for j := 0 to |outputs|
        invariant run != [] && IsRun(c, b, run)
        invariant Last(run).history == Last(before).history && Last(run).phase == Folding(outputs[j..])
        invariant Last(run).now == Boundary(ctx, skipped, input.Value()) && failure.None?
      {
        var sent := outputs[j];
        ghost var s := Last(run);
        assert outputs[j..][1..] == outputs[j + 1..];
        if sent.out.isSkipped {
          ctx := ctx[sent.key := sent.out.output];
          skipped := skipped[sent.key := sent.out.skipReason];
          ghost var t := s.(phase := Folding(outputs[j + 1..]), log := s.log + [Stored(sent.key)],
                            now := Boundary(ctx, skipped, input.Value()));
          Extend(c, b, run, Fold(input.Value()), t);
          run := run + [t];
        } else {
          var overridden := applyOverrides(sent.out.output);
          if overridden.Err? {
            failure := Some(Failure(sent.key, overridden.error));
            ghost var t := s.(phase := Stopped(OverrideFailed(failure.value)));
            Extend(c, b, run, Fold(input.Value()), t);
            run := run + [t];
            return;
          }
          ctx := ctx[sent.key := overridden.value];
          input.Merge(overridden.value.offer);
          ghost var t := s.(phase := Folding(outputs[j + 1..]),
                            log := s.log + [Overridden(sent.key), Stored(sent.key), Merged(sent.key)],
                            now := Boundary(ctx, skipped, input.Value()));
          Extend(c, b, run, Fold(input.Value()), t);
          run := run + [t];
        }
      }
      ghost var s := Last(run);
      ghost var t := s.(history := s.history + [s.now], phase := BetweenStages);
      assert outputs[|outputs|..] == [];
      Extend(c, b, run, EndStage, t);
      run := run + [t];
    }
  }
}
