/**
 Stages of child Case calls over the accumulating artifact registry.  A serial call sees what earlier
 calls published; parallel calls all see the registry from before their stage, and their results are
 merged in declaration order.
 */
module CaseStages {
  import opened Outcomes
  import opened ArtifactRegistry

  /** One artifact binding of a call: which input takes which registered artifact. */
  datatype Wanted = Wanted(input: string, artifact: string)

  datatype Call = Call(name: string, caseName: string, inputs: map<string, Binding>, wanted: seq<Wanted>)

  datatype Stage = Stage(name: string, calls: seq<Call>, parallel: bool, failFast: bool)

  datatype Request = Request(stageName: string, call: Call, bindings: map<string, Binding>)

  datatype CaseResult = CaseResult(ok: bool, artifacts: seq<Artifact>)

  type Invoke = Request -> CaseResult

  datatype RunError = MissingArtifact(call: string, artifact: string) | PublishedTwice(qualified: string) | Cancelled

  predicate IsStage(stage: Stage) {
    && stage.calls != []
    && forall i, k | 0 <= i < k < |stage.calls| :: stage.calls[i].name != stage.calls[k].name
  }

  // ---- Requests --------------------------------------------------------------------------

  predicate Available(wanted: seq<Wanted>, artifacts: map<string, Binding>) {
    forall w <- wanted :: w.artifact in artifacts
  }

  /** The fixed inputs, overridden in order by the registered artifacts. */
  function Resolve(inputs: map<string, Binding>, wanted: seq<Wanted>, artifacts: map<string, Binding>)
    : map<string, Binding>
    requires Available(wanted, artifacts)
  {
    if wanted == [] then inputs
    else
      var last := wanted[|wanted| - 1];
      Resolve(inputs, wanted[..|wanted| - 1], artifacts)[last.input := artifacts[last.artifact]]
  }

  function RequestFor(stage: Stage, call: Call, artifacts: map<string, Binding>): Request
    requires Available(call.wanted, artifacts)
  {
    Request(stage.name, call, Resolve(call.inputs, call.wanted, artifacts))
  }

  lemma MissingAt(wanted: seq<Wanted>, artifacts: map<string, Binding>, i: nat)
    requires i < |wanted|
    ensures wanted[i].artifact !in artifacts ==>
              !Available(wanted[i..], artifacts) && FirstMissing(wanted[i..], artifacts) == wanted[i].artifact
              && !Available(wanted, artifacts)
    ensures wanted[i].artifact in artifacts && !Available(wanted[i..], artifacts) ==>
              !Available(wanted[i + 1..], artifacts)
              && FirstMissing(wanted[i..], artifacts) == FirstMissing(wanted[i + 1..], artifacts)
  {
    assert wanted[i..][0] == wanted[i] && wanted[i..][1..] == wanted[i + 1..];
    assert wanted[i] in wanted && wanted[i] in wanted[i..];
  }

  /** Building a request fails exactly when a wanted artifact is not registered, naming the first such. */
  method BuildRequest(stage: Stage, call: Call, artifacts: map<string, Binding>) returns (r: Result<Request, RunError>)
    ensures r.Ok? <==> Available(call.wanted, artifacts)
    ensures r.Ok? ==> r.value == RequestFor(stage, call, artifacts)
    ensures r.Err? ==> r.error == MissingArtifact(call.name, FirstMissing(call.wanted, artifacts))
  {
    var resolved := call.inputs;
    var i := 0;
    while i < |call.wanted|
      invariant i <= |call.wanted| && Available(call.wanted[..i], artifacts)
      invariant resolved == Resolve(call.inputs, call.wanted[..i], artifacts)
      invariant !Available(call.wanted, artifacts) ==>
                  !Available(call.wanted[i..], artifacts)
                  && FirstMissing(call.wanted, artifacts) == FirstMissing(call.wanted[i..], artifacts)
    {
      MissingAt(call.wanted, artifacts, i);
      var w := call.wanted[i];
      if w.artifact !in artifacts {
        return Err(MissingArtifact(call.name, w.artifact));
      }
      assert call.wanted[..i + 1][..i] == call.wanted[..i];
      resolved := resolved[w.input := artifacts[w.artifact]];
      i := i + 1;
    }
    assert call.wanted[..|call.wanted|] == call.wanted;
    r := Ok(Request(stage.name, call, resolved));
  }

  predicate Takes(wanted: seq<Wanted>, input: string) {
    exists i | 0 <= i < |wanted| :: wanted[i].input == input
  }

  /** An input is the artifact of the last binding for it, and otherwise the fixed one, if there is one. */
  lemma {:induction false} ResolvedInput(inputs: map<string, Binding>, wanted: seq<Wanted>,
                                         artifacts: map<string, Binding>, k: string)
    requires Available(wanted, artifacts)
    ensures var r := Resolve(inputs, wanted, artifacts);
            && (k in r <==> k in inputs || Takes(wanted, k))
            && (!Takes(wanted, k) && k in inputs ==> r[k] == inputs[k])
            && (forall i | 0 <= i < |wanted| && wanted[i].input == k
                    && (forall j | i < j < |wanted| :: wanted[j].input != k) ::
                  r[k] == artifacts[wanted[i].artifact])
  {
    if wanted != [] {
      var n := |wanted| - 1;
      var init := wanted[..n];
      ResolvedInput(inputs, init, artifacts, k);
      if Takes(init, k) {
        var i :| 0 <= i < n && init[i].input == k;
        assert wanted[i].input == k;
      }
      if Takes(wanted, k) && wanted[n].input != k {
        var i :| 0 <= i < |wanted| && wanted[i].input == k;
        assert init[i].input == k;
      }
      forall i | 0 <= i < n && wanted[i].input == k && forall j | i < j < |wanted| :: wanted[j].input != k
        ensures init[i].input == k && forall j | i < j < n :: init[j].input != k
      {
        assert forall j | i < j < n :: init[j] == wanted[j];
      }
      if wanted[n].input == k {
        assert Takes(wanted, k);
      }
    }
  }

  // ---- What a stage does -----------------------------------------------------------------

  /** The first calls of a serial stage: registry, results, and why it ended early. */
  datatype Progress = Progress(registry: Registry, results: seq<CaseResult>, stopped: bool, error: Option<RunError>)

  function SerialStep(stage: Stage, invoke: Invoke, p: Progress, call: Call): Progress {
    if !Available(call.wanted, p.registry.bindings) then
      p.(error := Some(MissingArtifact(call.name, FirstMissing(call.wanted, p.registry.bindings))))
    else
      var result := invoke(RequestFor(stage, call, p.registry.bindings));
      if result.ok then
        var m := Merge(p.registry, call.name, result.artifacts);
        if m.conflict.Some? then p.(registry := m.registry, error := Some(PublishedTwice(m.conflict.value)))
        else p.(registry := m.registry, results := p.results + [result])
      else p.(results := p.results + [result], stopped := stage.failFast)
  }

  function FirstMissing(wanted: seq<Wanted>, artifacts: map<string, Binding>): string
    requires !Available(wanted, artifacts)
  {
    if wanted[0].artifact !in artifacts then wanted[0].artifact else FirstMissing(wanted[1..], artifacts)
  }

  function Serial(g: Registry, stage: Stage, invoke: Invoke, n: nat): Progress
    requires n <= |stage.calls|
  {
    if n == 0 then Progress(g, [], false, None)
    else
      var p := Serial(g, stage, invoke, n - 1);
      if p.error.Some? || p.stopped then p else SerialStep(stage, invoke, p, stage.calls[n - 1])
  }

  /** The registry after merging the successful results of the first `n` calls, in declaration order. */
  function MergeInOrder(g: Registry, calls: seq<Call>, results: seq<CaseResult>, n: nat): Merged
    requires n <= |calls| == |results|
  {
    if n == 0 then Merged(g, None)
    else
      var m := MergeInOrder(g, calls, results, n - 1);
      if m.conflict.Some? || !results[n - 1].ok then m
      else Merge(m.registry, calls[n - 1].name, results[n - 1].artifacts)
  }

  lemma {:induction false} SerialGrows(g: Registry, stage: Stage, invoke: Invoke, n: nat)
    requires n <= |stage.calls| && IsView(g)
    ensures Grows(g, Serial(g, stage, invoke, n).registry) && IsView(Serial(g, stage, invoke, n).registry)
  {
    if n > 0 {
      SerialGrows(g, stage, invoke, n - 1);
      var p := Serial(g, stage, invoke, n - 1);
      var call := stage.calls[n - 1];
      if p.error.None? && !p.stopped && Available(call.wanted, p.registry.bindings) {
        MergeGrows(p.registry, call.name, invoke(RequestFor(stage, call, p.registry.bindings)).artifacts);
      }
    }
  }

  /** Some result failed. */
  predicate SomeFailed(results: seq<CaseResult>) {
    exists i | 0 <= i < |results| :: !results[i].ok
  }

  lemma SomeFailedSnoc(results: seq<CaseResult>, r: CaseResult)
    ensures SomeFailed(results + [r]) <==> SomeFailed(results) || !r.ok
  {
    var all := results + [r];
    if SomeFailed(results) {
      var i :| 0 <= i < |results| && !results[i].ok;
      assert !all[i].ok;
    }
    if !r.ok {
      assert !all[|results|].ok;
    }
    if SomeFailed(all) && r.ok {
      var i :| 0 <= i < |all| && !all[i].ok;
      assert !results[i].ok;
    }
  }

  /**
   A serial stage runs its calls in turn: it is stopped exactly by a failure when it is fail-fast, and
   otherwise goes through all calls unless an artifact is missing or conflicts.
   */
  lemma {:induction false} SerialRunsInTurn(g: Registry, stage: Stage, invoke: Invoke, n: nat)
    requires n <= |stage.calls|
    ensures var p := Serial(g, stage, invoke, n);
            && |p.results| <= n
            && (p.stopped <==> stage.failFast && SomeFailed(p.results))
            && (p.stopped ==> p.error.None?)
            && (p.error.None? && !p.stopped ==> |p.results| == n)
  {
    if n > 0 {
      SerialRunsInTurn(g, stage, invoke, n - 1);
      var p, q := Serial(g, stage, invoke, n - 1), Serial(g, stage, invoke, n);
      if p.error.None? && !p.stopped && q.results != p.results {
        SomeFailedSnoc(p.results, q.results[|p.results|]);
      }
    }
  }

  lemma {:induction false} SerialLength(g: Registry, stage: Stage, invoke: Invoke, n: nat)
    requires n <= |stage.calls|
    ensures var p := Serial(g, stage, invoke, n);
            |p.results| <= n && (p.error.None? && !p.stopped ==> |p.results| == n)
  {
    if n > 0 {
      SerialLength(g, stage, invoke, n - 1);
    }
  }

  /** A step without an error adds the result of its call, and what it published. */
  lemma StepAddsResult(stage: Stage, invoke: Invoke, p: Progress, call: Call) returns (r: CaseResult)
    requires p.error.None? && !p.stopped && SerialStep(stage, invoke, p, call).error.None?
    ensures Available(call.wanted, p.registry.bindings) && r == invoke(RequestFor(stage, call, p.registry.bindings))
    ensures var q := SerialStep(stage, invoke, p, call);
            && q.results == p.results + [r] && q.stopped == (stage.failFast && !r.ok)
            && Merged(q.registry, None) ==
                 if r.ok then Merge(p.registry, call.name, r.artifacts) else Merged(p.registry, None)
  {
    r := invoke(RequestFor(stage, call, p.registry.bindings));
  }

  lemma MergeInOrderNext(g: Registry, calls: seq<Call>, results: seq<CaseResult>, call: Call, r: CaseResult,
                         before: Registry)
    requires |calls| == |results| && MergeInOrder(g, calls, results, |calls|) == Merged(before, None)
    ensures MergeInOrder(g, calls + [call], results + [r], |calls| + 1) ==
              if r.ok then Merge(before, call.name, r.artifacts) else Merged(before, None)
  {
    MergeOfMore(g, calls, calls + [call], results, results + [r], |calls|);
  }

  /** The registry of a serial stage is that of merging its results in order. */
  lemma {:induction false} SerialMergesInOrder(g: Registry, stage: Stage, invoke: Invoke, n: nat)
    requires n <= |stage.calls| && Serial(g, stage, invoke, n).error.None?
    ensures var p := Serial(g, stage, invoke, n);
            |p.results| <= n
            && Merged(p.registry, None) == MergeInOrder(g, stage.calls[..|p.results|], p.results, |p.results|)
  {
    SerialLength(g, stage, invoke, n);
    if n > 0 {
      SerialMergesInOrder(g, stage, invoke, n - 1);
      var p := Serial(g, stage, invoke, n - 1);
      if !p.stopped {
        SerialLength(g, stage, invoke, n - 1);
        var r := StepAddsResult(stage, invoke, p, stage.calls[n - 1]);
        assert stage.calls[..n] == stage.calls[..n - 1] + [stage.calls[n - 1]];
        MergeInOrderNext(g, stage.calls[..n - 1], p.results, stage.calls[n - 1], r, p.registry);
      }
    }
  }

  lemma {:induction false} MergeOfMore(g: Registry, calls: seq<Call>, more: seq<Call>, results: seq<CaseResult>,
                                       longer: seq<CaseResult>, n: nat)
    requires n <= |calls| == |results| && calls <= more && results <= longer && |more| == |longer|
    ensures MergeInOrder(g, calls, results, n) == MergeInOrder(g, more, longer, n)
  {
    if n > 0 {
      MergeOfMore(g, calls, more, results, longer, n - 1);
    }
  }

  /** The result that call `i` of a serial stage gives, on the registry that the calls before it left. */
  ghost predicate IsResultOf(g: Registry, stage: Stage, invoke: Invoke, i: nat, result: CaseResult)
    requires i < |stage.calls|
  {
    var p := Serial(g, stage, invoke, i);
    && p.error.None? && !p.stopped && Available(stage.calls[i].wanted, p.registry.bindings)
    && result == invoke(RequestFor(stage, stage.calls[i], p.registry.bindings))
  }

  /** Each result of a serial stage is that of its own call. */
  lemma {:induction false} SerialResult(g: Registry, stage: Stage, invoke: Invoke, n: nat, i: nat)
    requires n <= |stage.calls| && i < |Serial(g, stage, invoke, n).results|
    ensures i < n && IsResultOf(g, stage, invoke, i, Serial(g, stage, invoke, n).results[i])
  {
    var p := Serial(g, stage, invoke, n - 1);
    SerialLength(g, stage, invoke, n - 1);
    if p.error.Some? || p.stopped {
      SerialResult(g, stage, invoke, n - 1, i);
    } else if i < |p.results| {
      SerialResult(g, stage, invoke, n - 1, i);
      StepKeepsResults(stage, invoke, p, stage.calls[n - 1], i);
    } else {
      LastResult(stage, invoke, p, stage.calls[n - 1]);
    }
  }

  lemma LastResult(stage: Stage, invoke: Invoke, p: Progress, call: Call)
    requires |SerialStep(stage, invoke, p, call).results| > |p.results|
    ensures Available(call.wanted, p.registry.bindings)
    ensures SerialStep(stage, invoke, p, call).results ==
              p.results + [invoke(RequestFor(stage, call, p.registry.bindings))]
  {
  }

  lemma StepKeepsResults(stage: Stage, invoke: Invoke, p: Progress, call: Call, i: nat)
    requires i < |p.results|
    ensures i < |SerialStep(stage, invoke, p, call).results|
    ensures SerialStep(stage, invoke, p, call).results[i] == p.results[i]
  {
  }

  /** A serial stage fails exactly at a call whose artifact is missing or whose result conflicts. */
  lemma SerialFailsIff(g: Registry, stage: Stage, invoke: Invoke, n: nat)
    requires n < |stage.calls| && Serial(g, stage, invoke, n).error.None? && !Serial(g, stage, invoke, n).stopped
    ensures var p := Serial(g, stage, invoke, n); var call := stage.calls[n];
            var q := Serial(g, stage, invoke, n + 1);
            if !Available(call.wanted, p.registry.bindings) then
              q.error == Some(MissingArtifact(call.name, FirstMissing(call.wanted, p.registry.bindings)))
              && q.registry == p.registry
            else
              var result := invoke(RequestFor(stage, call, p.registry.bindings));
              var merged := Merge(p.registry, call.name, result.artifacts);
              && (q.error.Some? <==> result.ok && merged.conflict.Some?)
              && (q.error.Some? ==> q.error == Some(PublishedTwice(merged.conflict.value)))
              && q.registry == if result.ok then merged.registry else p.registry
  {
  }

  /** The artifact reported missing is wanted and not registered, and those wanted before it are. */
  lemma {:induction false} FirstMissingIsFirst(wanted: seq<Wanted>, artifacts: map<string, Binding>) returns (i: nat)
    requires !Available(wanted, artifacts)
    ensures i < |wanted| && FirstMissing(wanted, artifacts) == wanted[i].artifact
    ensures wanted[i].artifact !in artifacts
    ensures forall j | 0 <= j < i :: wanted[j].artifact in artifacts
  {
    if wanted[0].artifact !in artifacts {
      i := 0;
    } else {
      assert wanted == [wanted[0]] + wanted[1..];
      var k := FirstMissingIsFirst(wanted[1..], artifacts);
      i := k + 1;
    }
  }

  lemma {:induction false} MergeInOrderGrows(g: Registry, calls: seq<Call>, results: seq<CaseResult>, n: nat)
    requires n <= |calls| == |results| && IsView(g)
    ensures Grows(g, MergeInOrder(g, calls, results, n).registry) && IsView(MergeInOrder(g, calls, results, n).registry)
  {
    if n > 0 {
      MergeInOrderGrows(g, calls, results, n - 1);
      MergeGrows(MergeInOrder(g, calls, results, n - 1).registry, calls[n - 1].name, results[n - 1].artifacts);
    }
  }

  // ---- Serial against parallel -----------------------------------------------------------

  predicate SameRequest(a: Request, b: Request) {
    && a.stageName == b.stageName && a.call == b.call && a.bindings.Keys == b.bindings.Keys
    && forall k <- a.bindings :: a.bindings[k].ref == b.bindings[k].ref
  }

  predicate SameResult(a: CaseResult, b: CaseResult) {
    a.ok == b.ok && SameEntries(a.artifacts, b.artifacts)
  }

  /** Invoking a Case depends on its inputs by reference, not on who published them. */
  ghost predicate RefDetermined(invoke: Invoke) {
    forall a, b :: SameRequest(a, b) ==> SameResult(invoke(a), invoke(b))
  }

  lemma {:induction false} ResolveByRef(inputs: map<string, Binding>, wanted: seq<Wanted>, g: Registry, h: Registry)
    requires IsView(g) && IsView(h) && Grows(g, h) && Available(wanted, g.bindings)
    ensures Available(wanted, h.bindings)
    ensures Resolve(inputs, wanted, g.bindings).Keys == Resolve(inputs, wanted, h.bindings).Keys
    ensures forall k <- Resolve(inputs, wanted, g.bindings) ::
              Resolve(inputs, wanted, g.bindings)[k].ref == Resolve(inputs, wanted, h.bindings)[k].ref
  {
    if wanted != [] {
      ResolveByRef(inputs, wanted[..|wanted| - 1], g, h);
    }
  }

  /** The result of each call when all of them see the registry `g`. */
  function ParallelResults(g: Registry, stage: Stage, invoke: Invoke, n: nat): (results: seq<CaseResult>)
    requires n <= |stage.calls| && forall i | 0 <= i < n :: Available(stage.calls[i].wanted, g.bindings)
    ensures |results| == n
    ensures forall i | 0 <= i < n :: results[i] == invoke(RequestFor(stage, stage.calls[i], g.bindings))
  {
    if n == 0 then []
    else ParallelResults(g, stage, invoke, n - 1) + [invoke(RequestFor(stage, stage.calls[n - 1], g.bindings))]
  }

  lemma SameRequests(g: Registry, h: Registry, stage: Stage, call: Call)
    requires IsView(g) && IsView(h) && Grows(g, h) && Available(call.wanted, g.bindings)
    ensures Available(call.wanted, h.bindings)
    ensures SameRequest(RequestFor(stage, call, h.bindings), RequestFor(stage, call, g.bindings))
  {
    ResolveByRef(call.inputs, call.wanted, g, h);
  }

  ghost predicate Matches(p: Progress, m: Merged) {
    && SameRefs(p.registry, m.registry) && !p.stopped
    && p.error == if m.conflict.Some? then Some(PublishedTwice(m.conflict.value)) else None
  }

  lemma SerialStepMatches(g: Registry, p: Progress, m: Merged, stage: Stage, invoke: Invoke, call: Call)
    requires IsView(g) && IsView(p.registry) && Grows(g, p.registry) && Matches(p, m) && p.error.None?
    requires RefDetermined(invoke) && Available(call.wanted, g.bindings)
    requires invoke(RequestFor(stage, call, g.bindings)).ok
    ensures Matches(SerialStep(stage, invoke, p, call),
                    Merge(m.registry, call.name, invoke(RequestFor(stage, call, g.bindings)).artifacts))
  {
    SameRequests(g, p.registry, stage, call);
    var r := invoke(RequestFor(stage, call, p.registry.bindings));
    var s := invoke(RequestFor(stage, call, g.bindings));
    assert SameResult(r, s);
    MergeIgnoresReceipts(p.registry, m.registry, call.name, r.artifacts, s.artifacts);
  }

  /**
   When every call succeeds and consumes only artifacts from before the stage, running the stage
   serially or in parallel registers the same references, and stops at the same conflict if any.
   */
  lemma {:induction false} SerialMatchesParallel(
    g: Registry, stage: Stage, invoke: Invoke, n: nat, results: seq<CaseResult>)
    requires n <= |stage.calls| == |results| && IsView(g) && RefDetermined(invoke)
    requires forall i | 0 <= i < |stage.calls| ::
               && Available(stage.calls[i].wanted, g.bindings) && results[i].ok
               && results[i] == invoke(RequestFor(stage, stage.calls[i], g.bindings))
    ensures Matches(Serial(g, stage, invoke, n), MergeInOrder(g, stage.calls, results, n))
  {
    if n > 0 {
      SerialMatchesParallel(g, stage, invoke, n - 1, results);
      if Serial(g, stage, invoke, n - 1).error.None? {
        SerialGrows(g, stage, invoke, n - 1);
        SerialStepMatches(g, Serial(g, stage, invoke, n - 1), MergeInOrder(g, stage.calls, results, n - 1),
                          stage, invoke, stage.calls[n - 1]);
      }
    }
  }

  /** Once a serial stage has ended early, later calls change nothing. */
  lemma {:induction false} SerialStays(g: Registry, stage: Stage, invoke: Invoke, m: nat, n: nat)
    requires m <= n <= |stage.calls|
    requires Serial(g, stage, invoke, m).stopped || Serial(g, stage, invoke, m).error.Some?
    ensures Serial(g, stage, invoke, n) == Serial(g, stage, invoke, m)
  {
    if m < n {
      SerialStays(g, stage, invoke, m, n - 1);
    }
  }

  lemma {:induction false} MergeStays(g: Registry, calls: seq<Call>, results: seq<CaseResult>, m: nat, n: nat)
    requires m <= n <= |calls| == |results| && MergeInOrder(g, calls, results, m).conflict.Some?
    ensures MergeInOrder(g, calls, results, n) == MergeInOrder(g, calls, results, m)
  {
    if m < n {
      MergeStays(g, calls, results, m, n - 1);
    }
  }

  /** A call that consumes what an earlier call of its own stage publishes works only serially. */
  lemma SiblingArtifactsNeedSerialStages(producer: Call, consumer: Call, invoke: Invoke, receipt: Receipt, ref: Ref)
    requires producer.wanted == [] && consumer.wanted == [Wanted("x", "model")]
    requires forall r: Request ::
               invoke(r) == CaseResult(true, if r.call == producer then [Artifact("model", ref, Some(receipt))] else [])
    requires producer != consumer && producer.name != consumer.name
    ensures var stage, empty := Stage("s", [producer, consumer], false, true), Registry(map[], map[]);
            && IsStage(stage) && !Available(consumer.wanted, empty.bindings)
            && Serial(empty, stage, invoke, 2).error.None? && |Serial(empty, stage, invoke, 2).results| == 2
  {
    var stage, empty := Stage("s", [producer, consumer], false, true), Registry(map[], map[]);
    var first := Serial(empty, stage, invoke, 1);
    assert Serial(empty, stage, invoke, 0) == Progress(empty, [], false, None);
    var entry := Artifact("model", ref, Some(receipt));
    assert invoke(RequestFor(stage, producer, empty.bindings)).artifacts == [entry];
    assert [entry][..0] == [] && Merge(empty, producer.name, []) == Merged(empty, None);
    assert Merge(empty, producer.name, [entry]) == MergeOne(empty, producer.name, entry);
    assert "model" in first.registry.bindings;
  }
}
