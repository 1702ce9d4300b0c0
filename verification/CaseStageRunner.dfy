/** The stage runner itself: an object that updates its registry and its list of results. */
module CaseStageRunner {
  import opened Outcomes
  import opened ArtifactRegistry
  import opened CaseStages

  datatype StageResult = StageResult(stageName: string, results: seq<CaseResult>, refs: map<string, Ref>, stopped: bool)

  predicate AllOk(results: seq<CaseResult>) {
    forall r <- results :: r.ok
  }

  /** A stage result is ok when it holds some result and all of them are ok. */
  predicate IsOk(result: StageResult) {
    result.results != [] && AllOk(result.results)
  }

  /** What a serial stage without interruption returns and leaves. */
  ghost predicate RanSerially(stage: Stage, invoke: Invoke, before: Registry, after: Registry,
                              r: Result<StageResult, RunError>)
  {
    var p := Serial(before, stage, invoke, |stage.calls|);
    && after == p.registry
    && r == if p.error.Some? then Err(p.error.value)
            else Ok(StageResult(stage.name, p.results, after.refs, p.stopped))
  }

  /** The first call with a missing artifact, and the first of its artifacts that is missing. */
  ghost predicate NamesFirstMissing(stage: Stage, bindings: map<string, Binding>, e: RunError) {
    exists i | 0 <= i < |stage.calls| ::
      && !Available(stage.calls[i].wanted, bindings)
      && e == MissingArtifact(stage.calls[i].name, FirstMissing(stage.calls[i].wanted, bindings))
      && forall j | 0 <= j < i :: Available(stage.calls[j].wanted, bindings)
  }

  /** What a parallel stage without interruption returns and leaves, when its children returned `seen`. */
  ghost predicate RanInParallel(stage: Stage, invoke: Invoke, before: Registry, after: Registry,
                                r: Result<StageResult, RunError>, seen: seq<CaseResult>)
  {
    if exists c <- stage.calls :: !Available(c.wanted, before.bindings) then
      r.Err? && NamesFirstMissing(stage, before.bindings, r.error) && after == before
    else
      && |seen| == |stage.calls|
      && (AllOk(seen) || !stage.failFast ==> seen == ParallelResults(before, stage, invoke, |stage.calls|))
      && var m := MergeInOrder(before, stage.calls, seen, |stage.calls|);
         && after == m.registry
         && r == if m.conflict.Some? then Err(PublishedTwice(m.conflict.value))
                 else Ok(StageResult(stage.name, seen, after.refs, stage.failFast && !AllOk(seen)))
  }

  /** What a stage returns and leaves, unless it is interrupted. */
  ghost predicate Ran(stage: Stage, invoke: Invoke, before: Registry, after: Registry,
                      r: Result<StageResult, RunError>)
  {
    if stage.parallel then exists seen :: RanInParallel(stage, invoke, before, after, r, seen)
    else RanSerially(stage, invoke, before, after, r)
  }

  /** Stage `k` gave its result on the registry that the stages before it left. */
  ghost predicate RanAt(stages: seq<Stage>, invoke: Invoke, regs: seq<Registry>, results: seq<StageResult>, k: nat)
    requires k < |results| <= |stages| && |results| < |regs|
  {
    && Ran(stages[k], invoke, regs[k], regs[k + 1], Ok(results[k]))
    && results[k].stageName == stages[k].name && results[k].refs == regs[k + 1].refs
    && Grows(regs[k + 1], regs[|results|])
  }

  /** The stages that have run, one after the other. */
  ghost predicate History(stages: seq<Stage>, invoke: Invoke, regs: seq<Registry>, results: seq<StageResult>) {
    && |regs| == |results| + 1 && |results| <= |stages|
    && forall k: nat | k < |results| :: RanAt(stages, invoke, regs, results, k)
  }

  lemma OneMoreStage(stages: seq<Stage>, invoke: Invoke, regs: seq<Registry>, results: seq<StageResult>,
                     result: StageResult, after: Registry)
    requires History(stages, invoke, regs, results) && |results| < |stages|
    requires Ran(stages[|results|], invoke, regs[|results|], after, Ok(result)) && Grows(regs[|results|], after)
    requires result.stageName == stages[|results|].name && result.refs == after.refs
    ensures History(stages, invoke, regs + [after], results + [result])
  {
    var rs, gs := results + [result], regs + [after];
    forall k: nat | k < |rs| ensures RanAt(stages, invoke, gs, rs, k) {
      if k < |results| {
        assert RanAt(stages, invoke, regs, results, k);
      }
    }
  }

  /** Every stage but perhaps the last one succeeded or may fail. */
  ghost predicate GoesOn(stages: seq<Stage>, results: seq<StageResult>, n: nat)
    requires n <= |results| <= |stages|
  {
    forall k | 0 <= k < n :: IsOk(results[k]) || !stages[k].failFast
  }

  class Runner {
    const stages: seq<Stage>
    const invoke: Invoke
    var artifacts: map<string, Ref>
    var bindings: map<string, Binding>
    var results: seq<StageResult>

    function Reg(): Registry
      reads this
    {
      Registry(artifacts, bindings)
    }

    ghost predicate Valid()
      reads this
    {
      IsView(Reg()) && forall s <- stages :: IsStage(s)
    }

    constructor (stages: seq<Stage>, invoke: Invoke, bindings: map<string, Binding>)
      requires forall s <- stages :: IsStage(s)
      ensures Valid() && this.stages == stages && this.invoke == invoke
      ensures this.bindings == bindings && results == []
    {
      this.stages, this.invoke, this.bindings := stages, invoke, bindings;
      artifacts := map k | k in bindings :: bindings[k].ref;
      results := [];
    }

    method MergeArtifacts(call: Call, result: CaseResult) returns (conflict: Option<string>)
      modifies this`artifacts, this`bindings
      ensures Reg() == Merge(old(Reg()), call.name, result.artifacts).registry
      ensures conflict == Merge(old(Reg()), call.name, result.artifacts).conflict
    {
      var i := 0;
      while i < |result.artifacts|
        invariant i <= |result.artifacts|
        invariant Merge(old(Reg()), call.name, result.artifacts[..i]) == Merged(Reg(), None)
      {
        var a := result.artifacts[i];
        assert result.artifacts[..i + 1][..i] == result.artifacts[..i];
        if a.publication.Some? {
          var qualified := Qualified(call.name, a.name);
          if qualified in artifacts && artifacts[qualified] != a.ref {
            ConflictStays(old(Reg()), call.name, result.artifacts, i + 1);
            return Some(qualified);
          }
          artifacts := artifacts[qualified := a.ref];
          bindings := bindings[qualified := Binding(a.ref, a.publication.value)];
          if a.name !in artifacts {
            artifacts := artifacts[a.name := a.ref];
            bindings := bindings[a.name := bindings[qualified]];
          }
        }
        i := i + 1;
      }
      assert result.artifacts[..|result.artifacts|] == result.artifacts;
      conflict := None;
    }

    /** Call after call, each with what the earlier ones published; a checkpoint may raise in between. */
    method RunSerial(stage: Stage) returns (r: Result<StageResult, RunError>)
      modifies this`artifacts, this`bindings
      ensures r != Err(Cancelled) ==>
                var p := Serial(old(Reg()), stage, invoke, |stage.calls|);
                && Reg() == p.registry
                && r == if p.error.Some? then Err(p.error.value)
                        else Ok(StageResult(stage.name, p.results, artifacts, p.stopped))
      ensures r == Err(Cancelled) ==>
                exists k: nat :: k <= |stage.calls| && Reg() == Serial(old(Reg()), stage, invoke, k).registry
    {
      var done: seq<CaseResult> := [];
      var i := 0;
      while i < |stage.calls|
        invariant i <= |stage.calls|
        invariant Serial(old(Reg()), stage, invoke, i) == Progress(Reg(), done, false, None)
      {
        var interrupted: bool := *;
        if interrupted {
          return Err(Cancelled);
        }
        var call := stage.calls[i];
        ghost var before := Reg();
        var request := BuildRequest(stage, call, bindings);
        if request.Err? {
          SerialStays(old(Reg()), stage, invoke, i + 1, |stage.calls|);
          return Err(request.error);
        }
        var result := invoke(request.value);
        if result.ok {
          var conflict := MergeArtifacts(call, result);
          if conflict.Some? {
            SerialStays(old(Reg()), stage, invoke, i + 1, |stage.calls|);
            return Err(PublishedTwice(conflict.value));
          }
        }
        done := done + [result];
        i := i + 1;
        if !result.ok && stage.failFast {
          SerialStays(old(Reg()), stage, invoke, i, |stage.calls|);
          return Ok(StageResult(stage.name, done, artifacts, true));
        }
      }
      r := Ok(StageResult(stage.name, done, artifacts, false));
    }

    /** All requests of a parallel stage, from the registry before it. */
    method BuildRequests(stage: Stage) returns (r: Result<seq<Request>, RunError>)
      ensures r.Ok? <==> forall c <- stage.calls :: Available(c.wanted, bindings)
      ensures r.Ok? ==>
                && |r.value| == |stage.calls|
                && forall i | 0 <= i < |stage.calls| :: r.value[i] == RequestFor(stage, stage.calls[i], bindings)
      ensures r.Err? ==> r.error.MissingArtifact? && NamesFirstMissing(stage, bindings, r.error)
    {
      var requests: seq<Request> := [];
      var i := 0;
      while i < |stage.calls|
        invariant i <= |stage.calls| == i + |stage.calls| - |requests|
        invariant forall k | 0 <= k < i ::
                    Available(stage.calls[k].wanted, bindings)
                    && requests[k] == RequestFor(stage, stage.calls[k], bindings)
      {
        var request := BuildRequest(stage, stage.calls[i], bindings);
        if request.Err? {
          assert stage.calls[i] in stage.calls;
          return Err(request.error);
        }
        requests := requests + [request.value];
        i := i + 1;
      }
      r := Ok(requests);
    }

    /**
     Wait for all children in whatever order they finish.  After a fail-fast failure the remaining
     children are cancelled, so their results are arbitrary; before it they are their own.
     */
    method CollectResults(stage: Stage, requests: seq<Request>)
      returns (r: Result<seq<CaseResult>, RunError>, stopped: bool)
      requires |requests| == |stage.calls|
      ensures r.Err? ==> r.error == Cancelled
      ensures r.Ok? ==>
                && |r.value| == |requests|
                && (stopped <==> stage.failFast && !AllOk(r.value))
                && (!stopped ==> forall i | 0 <= i < |requests| :: r.value[i] == invoke(requests[i]))
                && (stopped ==> exists i | 0 <= i < |requests| :: r.value[i] == invoke(requests[i]) && !r.value[i].ok)
    {
      var finished: map<nat, CaseResult> := map[];
      var pending := Below(|requests|);
      var idlePolls: nat := *;
      stopped := false;
      ghost var culprit: nat := 0;
      while pending != {}
        invariant pending <= Below(|requests|) && finished.Keys == Below(|requests|) - pending
        invariant !stopped ==> forall i <- finished ::
                    finished[i] == invoke(requests[i]) && (stage.failFast ==> finished[i].ok)
        invariant stopped ==> stage.failFast && culprit in finished && culprit < |requests|
                              && finished[culprit] == invoke(requests[culprit]) && !finished[culprit].ok
        decreases pending, idlePolls
      {
        var interrupted: bool := *;
        if interrupted {
          return Err(Cancelled), stopped;
        }
        var poll: bool := *;
        if poll && idlePolls > 0 {
          idlePolls := idlePolls - 1;
        } else {
          var i: nat :| i in pending;
          var result := invoke(requests[i]);
          if stopped {
            var disturbed: bool := *;
            if disturbed {
              result := *;
            }
          }
          finished, pending, idlePolls := finished[i := result], pending - {i}, *;
          if !result.ok && stage.failFast && !stopped {
            stopped, culprit := true, i;
          }
        }
      }
      var inOrder: seq<CaseResult> := [];
      var k := 0;
      while k < |requests|
        invariant k <= |requests| && |inOrder| == k
        invariant forall j: nat | j < k :: inOrder[j] == finished[j]
      {
        inOrder := inOrder + [finished[k]];
        k := k + 1;
      }
      assert stopped ==> inOrder[culprit] in inOrder;
      r := Ok(inOrder);
    }

    /** Merge the successful results in declaration order, up to the first conflict. */
    method MergeResults(calls: seq<Call>, results: seq<CaseResult>) returns (conflict: Option<string>)
      requires |calls| == |results|
      modifies this`artifacts, this`bindings
      ensures MergeInOrder(old(Reg()), calls, results, |calls|) == Merged(Reg(), conflict)
    {
      var i := 0;
      while i < |calls|
        invariant i <= |calls|
        invariant MergeInOrder(old(Reg()), calls, results, i) == Merged(Reg(), None)
      {
        if results[i].ok {
          conflict := MergeArtifacts(calls[i], results[i]);
          if conflict.Some? {
            MergeStays(old(Reg()), calls, results, i + 1, |calls|);
            return;
          }
        }
        i := i + 1;
      }
      conflict := None;
    }

    /**
     All calls see the registry from before the stage.  Nothing is registered until every child has
     finished; then the registry is a function of the results alone, whatever order they came in.
     */
    method RunParallel(stage: Stage) returns (r: Result<StageResult, RunError>, ghost seen: seq<CaseResult>)
      modifies this`artifacts, this`bindings
      ensures (r.Err? && (r.error.MissingArtifact? || r.error.Cancelled?)) ==> Reg() == old(Reg())
      ensures (exists c <- stage.calls :: !Available(c.wanted, old(bindings))) <==> r.Err? && r.error.MissingArtifact?
      ensures r.Err? && r.error.MissingArtifact? ==> NamesFirstMissing(stage, old(bindings), r.error)
      ensures r.Ok? || r.error.PublishedTwice? ==>
                && |seen| == |stage.calls|
                && var m := MergeInOrder(old(Reg()), stage.calls, seen, |stage.calls|);
                && Reg() == m.registry
                && var stopped := stage.failFast && !AllOk(seen);
                   r == if m.conflict.Some? then Err(PublishedTwice(m.conflict.value))
                        else Ok(StageResult(stage.name, seen, artifacts, stopped))
      ensures (r.Ok? || r.error.PublishedTwice?) && (AllOk(seen) || !stage.failFast) ==>
                seen == ParallelResults(old(Reg()), stage, invoke, |stage.calls|)
    {
      seen := [];
      var requests := BuildRequests(stage);
      if requests.Err? {
        return Err(requests.error), [];
      }
      var outcome, stopped := CollectResults(stage, requests.value);
      if outcome.Err? {
        return Err(outcome.error), [];
      }
      seen := outcome.value;
      var conflict := MergeResults(stage.calls, outcome.value);
      r := if conflict.Some? then Err(PublishedTwice(conflict.value))
           else Ok(StageResult(stage.name, outcome.value, artifacts, stopped));
    }

    /**
     Run the stages in order; the registry only grows, whatever happens.  Between two stages the registry
     goes through `regs`, and each result is that of its stage on the registry before it.
     */
    method Run() returns (error: Option<RunError>, ghost regs: seq<Registry>)
      requires Valid() && results == []
      modifies this
      ensures History(stages, invoke, regs, results) && regs[0] == old(Reg())
      ensures error.None? || error.value.Cancelled? ==> Grows(regs[|results|], Reg())
      ensures error.None? ==> regs[|results|] == Reg()
      ensures error.Some? && !error.value.Cancelled? ==>
                |results| < |stages| && Ran(stages[|results|], invoke, regs[|results|], Reg(), Err(error.value))
      ensures Valid() && Grows(old(Reg()), Reg()) && Grows(regs[|results|], Reg())
      ensures GoesOn(stages, results, if results == [] then 0 else |results| - 1)
      ensures error.None? && |results| < |stages| ==>
                results != [] && !IsOk(results[|results| - 1]) && stages[|results| - 1].failFast
    {
      var n := 0;
      regs := [Reg()];
      while n < |stages|
        invariant History(stages, invoke, regs, results) && regs[0] == old(Reg())
        invariant n == |results| && regs[n] == Reg()
        invariant Valid() && Grows(old(Reg()), Reg())
        invariant GoesOn(stages, results, n)
      {
        var interrupted: bool := *;
        if interrupted {
          return Some(Cancelled), regs;
        }
        ghost var next;
        error, next := RunNext(n, regs);
        if error.Some? {
          return error, regs;
        }
        regs := next;
        interrupted := *;
        if interrupted {
          return Some(Cancelled), regs;
        }
        if !IsOk(results[n]) && stages[n].failFast {
          return None, regs;
        }
        n := n + 1;
      }
      error := None;
    }

    /** Run stage `n` and keep its result, unless it fails. */
    method RunNext(n: nat, ghost regs: seq<Registry>) returns (error: Option<RunError>, ghost next: seq<Registry>)
      requires Valid() && History(stages, invoke, regs, results) && n == |results| < |stages| && regs[n] == Reg()
      modifies this
      ensures Valid() && Grows(regs[n], Reg())
      ensures error.None? ==>
                && next == regs + [Reg()] && |results| == n + 1 && results[..n] == old(results)
                && History(stages, invoke, next, results)
      ensures error.Some? ==> results == old(results)
      ensures error.Some? && !error.value.Cancelled? ==> Ran(stages[n], invoke, regs[n], Reg(), Err(error.value))
    {
      var result := RunStage(stages[n]);
      if result.Err? {
        return Some(result.error), regs;
      }
      OneMoreStage(stages, invoke, regs, results, result.value, Reg());
      results := results + [result.value];
      return None, regs + [Reg()];
    }

    method RunStage(stage: Stage) returns (r: Result<StageResult, RunError>)
      requires IsView(Reg())
      modifies this`artifacts, this`bindings
      ensures IsView(Reg()) && Grows(old(Reg()), Reg())
      ensures r.Ok? ==> r.value.stageName == stage.name && r.value.refs == artifacts
      ensures r != Err(Cancelled) ==> Ran(stage, invoke, old(Reg()), Reg(), r)
    {
      ghost var before := Reg();
      if stage.parallel {
        ghost var seen;
        r, seen := RunParallel(stage);
        assert r != Err(Cancelled) ==> RanInParallel(stage, invoke, before, Reg(), r, seen);
        if r.Ok? || r.error.PublishedTwice? {
          MergeInOrderGrows(before, stage.calls, seen, |stage.calls|);
        }
      } else {
        r := RunSerial(stage);
        forall k: nat | k <= |stage.calls|
          ensures Grows(before, Serial(before, stage, invoke, k).registry)
          ensures IsView(Serial(before, stage, invoke, k).registry)
        {
          SerialGrows(before, stage, invoke, k);
        }
      }
    }
  }

  function Below(n: nat): (s: set<nat>)
    ensures forall i: nat :: i in s <==> i < n
  {
    if n == 0 then {} else Below(n - 1) + {n - 1}
  }

  lemma {:induction false} ConflictStays(g: Registry, call: string, artifacts: seq<Artifact>, n: nat)
    requires n <= |artifacts| && Merge(g, call, artifacts[..n]).conflict.Some?
    ensures Merge(g, call, artifacts) == Merge(g, call, artifacts[..n])
  {
    if n == |artifacts| {
      assert artifacts[..n] == artifacts;
    } else {
      assert artifacts[..|artifacts| - 1][..n] == artifacts[..n];
      ConflictStays(g, call, artifacts[..|artifacts| - 1], n);
    }
  }
}
