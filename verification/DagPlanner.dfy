/**
 The stage planner: explicit dependencies, dependencies inferred from artifact inputs, and the
 wave-by-wave topological order with its cycle report.
 */
module DagPlanner {
  import opened Outcomes
  import opened Graphs
  import opened TopologicalOrder

  datatype ConfigError =
    | NoCases
    | DuplicateCases
    | UnknownTargets
    | MissingDependency(caseName: string)
    | SelfDependency(caseName: string)
    | UnknownInputTargets
    | ConsumesOwnArtifact(caseName: string)
    | DependencyCycle(members: seq<string>)

  datatype Stage = Stage(
    name: string,
    cases: seq<string>,
    dependsOn: map<string, seq<string>>,
    inputs: map<string, seq<string>>)   // per case, the registry keys it consumes, in order

  datatype Plan = Plan(
    cases: seq<string>,
    dependencies: map<string, seq<string>>,
    explicitDependencies: map<string, seq<string>>,
    inferredDependencies: map<string, seq<string>>,
    order: seq<string>)

  // ---- Artifact keys ---------------------------------------------------------------------

  /** The non-empty parts of a dotted key; `part` is the part being read. */
  function Parts(key: string, part: string := ""): seq<string> {
    var kept := if part == "" then [] else [part];
    if key == "" then kept
    else if key[0] == '.' then kept + Parts(key[1..], "")
    else Parts(key[1..], part + [key[0]])
  }

  function ProducerCase(key: string, stageName: string, cases: seq<string>): Option<string> {
    var parts := Parts(key);
    if |parts| >= 3 && parts[0] == stageName && parts[1] in cases then Some(parts[1])
    else if |parts| >= 2 && parts[0] in cases then Some(parts[0])
    else None
  }

  predicate IsPlainName(name: string) {
    name != "" && '.' !in name
  }

  lemma {:induction false} PlainPrefixIsRead(name: string, rest: string, part: string)
    requires '.' !in name
    ensures Parts(name + rest, part) == Parts(rest, part + name)
  {
    if name == "" {
      assert name + rest == rest && part + name == part;
    } else {
      assert (name + rest)[1..] == name[1..] + rest;
      assert part + name == (part + [name[0]]) + name[1..];
      PlainPrefixIsRead(name[1..], rest, part + [name[0]]);
    }
  }

  lemma PlainNameIsOnePart(name: string)
    requires IsPlainName(name)
    ensures Parts(name) == [name]
  {
    PlainPrefixIsRead(name, "", "");
    assert name + "" == name && "" + name == name;
  }

  lemma {:induction false} PartsOfJoin(left: string, right: string, part: string)
    ensures Parts(left + "." + right, part) == Parts(left, part) + Parts(right)
  {
    if left == "" {
      assert left + "." + right == "." + right && ("." + right)[1..] == right;
    } else {
      assert (left + "." + right)[1..] == left[1..] + "." + right;
      PartsOfJoin(left[1..], right, if left[0] == '.' then "" else part + [left[0]]);
    }
  }

  lemma {:induction false} PartsArePlain(key: string, part: string)
    requires '.' !in part
    ensures forall name <- Parts(key, part) :: IsPlainName(name)
  {
    if key != "" {
      PartsArePlain(key[1..], if key[0] == '.' then "" else part + [key[0]]);
    }
  }

  /** Only a name without dots can be found as a producer. */
  lemma ProducersArePlain(key: string, stageName: string, cases: seq<string>)
    ensures var producer := ProducerCase(key, stageName, cases);
            producer.Some? ==> IsPlainName(producer.value) && producer.value in cases
  {
    PartsArePlain(key, "");
  }

  /** An artifact `x.y…` of a case named like its stage reads as artifact `y…` of the case `x`. */
  predicate ReadsAsStageKey(stageName: string, cases: seq<string>, c: string, artifact: string) {
    var parts := Parts(artifact);
    c == stageName && |parts| >= 2 && parts[0] in cases && parts[0] != c
  }

  /**
   The key `case.artifact` under which a stage publishes is attributed to its case exactly when the
   case has no dot in its name, the artifact's name is not made of dots alone, and the key does not
   read as a stage-qualified one.
   */
  lemma CaseKeyNamesItsProducerIff(stageName: string, cases: seq<string>, c: string, artifact: string)
    requires c in cases
    ensures ProducerCase(c + "." + artifact, stageName, cases) == Some(c)
            <==> IsPlainName(c) && Parts(artifact) != [] && !ReadsAsStageKey(stageName, cases, c, artifact)
  {
    ProducersArePlain(c + "." + artifact, stageName, cases);
    if IsPlainName(c) {
      PartsOfJoin(c, artifact, "");
      PlainNameIsOnePart(c);
    }
  }

  /**
   The key `stage.case.artifact` is attributed to its case exactly when the case has no dot in its
   name and, for a stage name without dots, the artifact's name is not made of dots alone (or case
   and stage share their name); a dotted stage name is only read right when it starts with the case.
   */
  lemma StageKeyNamesItsProducerIff(stageName: string, cases: seq<string>, c: string, artifact: string)
    requires c in cases
    ensures var start := Parts(stageName);
            ProducerCase(stageName + "." + (c + "." + artifact), stageName, cases) == Some(c)
            <==> IsPlainName(c)
                 && if start == [] then Parts(artifact) != []
                    else start[0] == c || (IsPlainName(stageName) && Parts(artifact) != [])
  {
    var key := stageName + "." + (c + "." + artifact);
    ProducersArePlain(key, stageName, cases);
    if IsPlainName(c) {
      PartsOfJoin(stageName, c + "." + artifact, "");
      PartsOfJoin(c, artifact, "");
      PlainNameIsOnePart(c);
      PartsArePlain(stageName, "");
      if IsPlainName(stageName) {
        PlainNameIsOnePart(stageName);
      }
    }
  }

  /** In stage "s" with the cases "s" and "b", the artifact "b.x" of case "s" is attributed to case "b". */
  lemma CaseNamedLikeItsStageIsMisread()
    ensures ProducerCase("s" + "." + "b.x", "s", ["s", "b"]) == Some("b")
  {
    PartsOfJoin("s", "b.x", "");
    assert "b.x" == "b" + "." + "x";
    PartsOfJoin("b", "x", "");
    PlainNameIsOnePart("s");
    PlainNameIsOnePart("b");
    PlainNameIsOnePart("x");
  }

  // ---- The plan --------------------------------------------------------------------------

  /** Everything the planner demands of a stage besides the absence of cycles. */
  ghost predicate IsWellFormed(stage: Stage) {
    && stage.cases != [] && Distinct(stage.cases)
    && stage.dependsOn.Keys <= Elements(stage.cases)
    && stage.inputs.Keys <= Elements(stage.cases)
    && DeclaredAreOtherCases(stage) && NobodyConsumesItself(stage)
  }

  ghost predicate DeclaredAreOtherCases(stage: Stage) {
    forall c <- stage.dependsOn :: forall d <- stage.dependsOn[c] :: d in stage.cases && d != c
  }

  ghost predicate NobodyConsumesItself(stage: Stage) {
    forall c <- stage.inputs :: forall key <- stage.inputs[c] ::
      ProducerCase(key, stage.name, stage.cases) != Some(c)
  }

  function Declared(stage: Stage, c: string): seq<string> {
    if c in stage.dependsOn then stage.dependsOn[c] else []
  }

  function Consumed(stage: Stage, c: string): seq<string> {
    if c in stage.inputs then stage.inputs[c] else []
  }

  function Producers(stage: Stage, c: string): set<string> {
    set d | d in stage.cases && exists key <- Consumed(stage, c) ::
                                  ProducerCase(key, stage.name, stage.cases) == Some(d)
  }

  /** The dependency graph that a stage denotes. */
  function StageGraph(stage: Stage): Graph<string> {
    map c | c in stage.cases :: Elements(Declared(stage, c)) + Producers(stage, c)
  }

  /** First occurrences, in order. */
  function Firsts(s: seq<string>): (r: seq<string>)
    ensures Distinct(r) && Elements(r) == Elements(s)
  {
    if s == [] then []
    else
      var init, last := s[..|s| - 1], s[|s| - 1];
      assert s == init + [last] && Elements(s) == Elements(init) + {last};
      assert last in init <==> last in Elements(init);
      assert Elements(Firsts(init) + [last]) == Elements(Firsts(init)) + {last};
      if last in init then Firsts(init) else Firsts(init) + [last]
  }

  /** Of two names the one that occurs first comes first. */
  lemma {:induction false} FirstsInOrder(s: seq<string>, i: nat, j: nat)
    requires i < j < |Firsts(s)|
    ensures exists k | 0 <= k < |s| :: s[k] == Firsts(s)[i] && Firsts(s)[j] !in s[..k + 1]
  {
    var init, last := s[..|s| - 1], s[|s| - 1];
    if j < |Firsts(init)| {
      FirstsInOrder(init, i, j);
      var k :| 0 <= k < |init| && init[k] == Firsts(init)[i] && Firsts(init)[j] !in init[..k + 1];
      assert s[k] == init[k] && s[..k + 1] == init[..k + 1];
    } else {
      assert Firsts(s)[i] in Elements(Firsts(init)) && Firsts(s)[i] in Elements(init);
      var k :| 0 <= k < |init| && init[k] == Firsts(s)[i];
      assert s[k] == init[k] && forall x <- s[..k + 1] :: x in init;
    }
  }

  method Unique(s: seq<string>) returns (r: seq<string>)
    ensures r == Firsts(s) && Distinct(r) && Elements(r) == Elements(s)
  {
    r := [];
    for i := 0 to |s|
      invariant r == Firsts(s[..i])
    {
      assert s[..i + 1][..i] == s[..i];
      assert s[i] in r <==> s[i] in Elements(s[..i]) by {
        assert s[i] in Elements(r) <==> s[i] in r;
      }
      if s[i] !in r {
        r := r + [s[i]];
      }
    }
    assert s[..|s|] == s;
  }

  /** The producers of these keys, in the order of the keys. */
  function ProducersOf(stage: Stage, keys: seq<string>): seq<string> {
    if keys == [] then []
    else
      var producer := ProducerCase(keys[|keys| - 1], stage.name, stage.cases);
      ProducersOf(stage, keys[..|keys| - 1]) + if producer.Some? then [producer.value] else []
  }

  method ExplicitDependencies(stage: Stage) returns (r: Result<Dependencies<string>, ConfigError>)
    requires stage.dependsOn.Keys <= Elements(stage.cases)
    ensures r.Ok? <==> DeclaredAreOtherCases(stage)
    ensures r.Err? ==> r.error.MissingDependency? || r.error.SelfDependency?
    ensures r.Err? ==> ErrorTells(stage, r.error)
    ensures r.Ok? ==> r.value.Keys == Elements(stage.cases)
                      && forall c <- stage.cases ::
                           && Distinct(r.value[c]) && Elements(r.value[c]) == Elements(Declared(stage, c))
                           && r.value[c] == Firsts(Declared(stage, c))
  {
    var known: Dependencies<string> := map[];
    for i := 0 to |stage.cases|
      invariant known.Keys == Elements(stage.cases[..i])
      invariant forall c <- known ::
                  && known[c] == Firsts(Declared(stage, c))
                  && forall d <- Declared(stage, c) :: d in stage.cases && d != c
    {
      var c := stage.cases[i];
      var unique := Unique(Declared(stage, c));
      assert forall d :: d in unique <==> d in Declared(stage, c) by {
        forall d ensures d in unique <==> d in Declared(stage, c) {
          assert d in unique <==> d in Elements(unique);
        }
      }
      if exists d <- unique :: d !in stage.cases {
        return Err(MissingDependency(c));
      }
      if c in unique {
        return Err(SelfDependency(c));
      }
      assert stage.cases[..i + 1] == stage.cases[..i] + [c];
      known := known[c := unique];
    }
    assert stage.cases[..|stage.cases|] == stage.cases;
    forall c <- stage.dependsOn ensures forall d <- stage.dependsOn[c] :: d in stage.cases && d != c {
      assert c in Elements(stage.cases);
    }
    r := Ok(known);
  }

  lemma ProducersNext(stage: Stage, keys: seq<string>, i: nat)
    requires i < |keys|
    ensures var before := ProducersOf(stage, keys[..i]);
            var producer := ProducerCase(keys[i], stage.name, stage.cases);
            Firsts(ProducersOf(stage, keys[..i + 1])) ==
              if producer.Some? && producer.value !in Firsts(before) then Firsts(before) + [producer.value]
              else Firsts(before)
  {
    var before, after := ProducersOf(stage, keys[..i]), ProducersOf(stage, keys[..i + 1]);
    assert keys[..i + 1][..i] == keys[..i];
    var producer := ProducerCase(keys[i], stage.name, stage.cases);
    if producer.None? {
      assert after == before;
    } else {
      assert after == before + [producer.value] && after[..|after| - 1] == before;
      assert producer.value in Firsts(before) <==> producer.value in before by {
        assert producer.value in Elements(Firsts(before)) <==> producer.value in Elements(before);
      }
    }
  }

  method InferProducers(stage: Stage, c: string) returns (r: Result<seq<string>, ConfigError>)
    ensures r.Ok? <==> forall key <- Consumed(stage, c) :: ProducerCase(key, stage.name, stage.cases) != Some(c)
    ensures r.Ok? ==> Distinct(r.value) && Elements(r.value) == Producers(stage, c)
    ensures r.Ok? ==> r.value == Firsts(ProducersOf(stage, Consumed(stage, c)))
    ensures r.Err? ==> r.error == ConsumesOwnArtifact(c)
                       && exists key <- Consumed(stage, c) :: ProducerCase(key, stage.name, stage.cases) == Some(c)
  {
    var keys := Consumed(stage, c);
    var producers: seq<string> := [];
    for i := 0 to |keys|
      invariant producers == Firsts(ProducersOf(stage, keys[..i]))
      invariant forall j | 0 <= j < i :: ProducerCase(keys[j], stage.name, stage.cases) != Some(c)
    {
      var producer := ProducerCase(keys[i], stage.name, stage.cases);
      ProducersNext(stage, keys, i);
      if producer == Some(c) {
        return Err(ConsumesOwnArtifact(c));
      }
      if producer.Some? && producer.value !in producers {
        producers := producers + [producer.value];
      }
    }
    assert keys[..|keys|] == keys;
    ProducersAreThose(stage, c);
    r := Ok(producers);
  }

  lemma ProducersAreThose(stage: Stage, c: string)
    ensures Elements(ProducersOf(stage, Consumed(stage, c))) == Producers(stage, c)
  {
    var keys := Consumed(stage, c);
    forall d ensures d in Elements(ProducersOf(stage, keys)) <==> d in Producers(stage, c) {
      ProducerIsFound(stage, keys, d);
      if key: string :| key in keys && ProducerCase(key, stage.name, stage.cases) == Some(d) {
        ProducersArePlain(key, stage.name, stage.cases);
      }
    }
  }

  lemma {:induction false} ProducerIsFound(stage: Stage, keys: seq<string>, d: string)
    ensures d in ProducersOf(stage, keys) <==>
            exists key <- keys :: ProducerCase(key, stage.name, stage.cases) == Some(d)
  {
    if keys != [] {
      ProducerIsFound(stage, keys[..|keys| - 1], d);
      assert keys == keys[..|keys| - 1] + [keys[|keys| - 1]];
    }
  }

  method InferredDependencies(stage: Stage) returns (r: Result<Dependencies<string>, ConfigError>)
    requires stage.inputs.Keys <= Elements(stage.cases)
    ensures r.Ok? <==> NobodyConsumesItself(stage)
    ensures r.Err? ==> r.error.ConsumesOwnArtifact? && ErrorTells(stage, r.error)
    ensures r.Ok? ==> r.value.Keys == Elements(stage.cases)
                      && forall c <- stage.cases ::
                           && Elements(r.value[c]) == Producers(stage, c)
                           && r.value[c] == Firsts(ProducersOf(stage, Consumed(stage, c)))
  {
    var known: Dependencies<string> := map[];
    for i := 0 to |stage.cases|
      invariant known.Keys == Elements(stage.cases[..i])
      invariant forall c <- known ::
                  && Elements(known[c]) == Producers(stage, c)
                  && known[c] == Firsts(ProducersOf(stage, Consumed(stage, c)))
                  && forall key <- Consumed(stage, c) :: ProducerCase(key, stage.name, stage.cases) != Some(c)
    {
      var c := stage.cases[i];
      var producers := InferProducers(stage, c);
      if producers.Err? {
        return Err(producers.error);
      }
      assert stage.cases[..i + 1] == stage.cases[..i] + [c];
      known := known[c := producers.value];
    }
    assert stage.cases[..|stage.cases|] == stage.cases;
    forall c <- stage.inputs
      ensures forall key <- stage.inputs[c] :: ProducerCase(key, stage.name, stage.cases) != Some(c)
    {
      assert c in Elements(stage.cases);
    }
    r := Ok(known);
  }

  method CombineDependencies(stage: Stage, declared: Dependencies<string>, inferred: Dependencies<string>)
    returns (all: Dependencies<string>)
    requires declared.Keys == Elements(stage.cases) == inferred.Keys
    ensures all.Keys == Elements(stage.cases)
    ensures forall c <- stage.cases ::
              && Distinct(all[c]) && Elements(all[c]) == Elements(declared[c]) + Elements(inferred[c])
              && all[c] == Firsts(declared[c] + inferred[c])
  {
    all := map[];
    for i := 0 to |stage.cases|
      invariant all.Keys == Elements(stage.cases[..i])
      invariant forall c <- all :: c in declared && c in inferred && Distinct(all[c])
                                   && all[c] == Firsts(declared[c] + inferred[c])
                                   && Elements(all[c]) == Elements(declared[c]) + Elements(inferred[c])
    {
      var c := stage.cases[i];
      assert c in Elements(stage.cases);
      var unique := Unique(declared[c] + inferred[c]);
      assert Elements(declared[c] + inferred[c]) == Elements(declared[c]) + Elements(inferred[c]);
      assert stage.cases[..i + 1] == stage.cases[..i] + [c];
      all := all[c := unique];
    }
    assert stage.cases[..|stage.cases|] == stage.cases;
  }

  /** Every error is about something that is wrong with the stage. */
  ghost predicate ErrorTells(stage: Stage, e: ConfigError) {
    match e
    case NoCases => stage.cases == []
    case DuplicateCases => stage.cases != [] && !Distinct(stage.cases)
    case UnknownTargets => !(stage.dependsOn.Keys <= Elements(stage.cases))
    case MissingDependency(c) => c in stage.cases && exists d <- Declared(stage, c) :: d !in stage.cases
    case SelfDependency(c) =>
      c in stage.cases && c in Declared(stage, c) && forall d <- Declared(stage, c) :: d in stage.cases
    case UnknownInputTargets => !(stage.inputs.Keys <= Elements(stage.cases))
    case ConsumesOwnArtifact(c) =>
      c in stage.cases && exists key <- Consumed(stage, c) :: ProducerCase(key, stage.name, stage.cases) == Some(c)
    case DependencyCycle(members) => members == Members(stage.cases, Cyclic(StageGraph(stage)))
  }

  /** The plan carries the stage's dependencies, split by origin, and the plan order of its graph. */
  ghost predicate PlanIsSound(stage: Stage, plan: Plan) {
    && plan.cases == stage.cases
    && plan.dependencies.Keys == plan.explicitDependencies.Keys == plan.inferredDependencies.Keys
       == Elements(stage.cases)
    && (forall c <- stage.cases ::
          && Distinct(plan.dependencies[c]) && Elements(plan.dependencies[c]) == StageGraph(stage)[c]
          && Elements(plan.explicitDependencies[c]) == Elements(Declared(stage, c))
          && Elements(plan.inferredDependencies[c]) == Producers(stage, c)
          && plan.explicitDependencies[c] == Firsts(Declared(stage, c))
          && plan.inferredDependencies[c] == Firsts(ProducersOf(stage, Consumed(stage, c)))
          && plan.dependencies[c] == Firsts(plan.explicitDependencies[c] + plan.inferredDependencies[c])
          && c !in StageGraph(stage)[c])
    && IsPlanOrder(StageGraph(stage), stage.cases, plan.order)
  }

  /**
   Planning a stage succeeds exactly when the stage is well formed and its graph is acyclic; the
   plan's dependencies are those of the stage graph and its order is the unique plan order.
   */
  method FromStage(stage: Stage) returns (r: Result<Plan, ConfigError>)
    ensures r.Ok? <==> IsWellFormed(stage) && Cyclic(StageGraph(stage)) == {}
    ensures r.Ok? ==> PlanIsSound(stage, r.value)
    ensures r.Err? ==> (r.error.DependencyCycle? ==> IsWellFormed(stage)) && ErrorTells(stage, r.error)
  {
    if stage.cases == [] {
      return Err(NoCases);
    }
    DistinctIffFullLength(stage.cases);
    if |stage.cases| != |Elements(stage.cases)| {
      return Err(DuplicateCases);
    }
    if !(stage.dependsOn.Keys <= Elements(stage.cases)) {
      return Err(UnknownTargets);
    }
    var declared := ExplicitDependencies(stage);
    if declared.Err? {
      return Err(declared.error);
    }
    if !(stage.inputs.Keys <= Elements(stage.cases)) {
      return Err(UnknownInputTargets);
    }
    var inferred := InferredDependencies(stage);
    if inferred.Err? {
      return Err(inferred.error);
    }
    r := OrderPlan(stage, declared.value, inferred.value);
  }

  method OrderPlan(stage: Stage, declared: Dependencies<string>, inferred: Dependencies<string>)
    returns (r: Result<Plan, ConfigError>)
    requires IsWellFormed(stage)
    requires declared.Keys == Elements(stage.cases) == inferred.Keys
    requires forall c <- stage.cases ::
               Elements(declared[c]) == Elements(Declared(stage, c)) && declared[c] == Firsts(Declared(stage, c))
    requires forall c <- stage.cases ::
               && Elements(inferred[c]) == Producers(stage, c)
               && inferred[c] == Firsts(ProducersOf(stage, Consumed(stage, c)))
    ensures r.Ok? <==> Cyclic(StageGraph(stage)) == {}
    ensures r.Ok? ==> PlanIsSound(stage, r.value)
    ensures r.Err? ==> r.error == DependencyCycle(Members(stage.cases, Cyclic(StageGraph(stage))))
  {
    var all := CombineDependencies(stage, declared, inferred);
    forall c <- stage.cases ensures Elements(all[c]) == StageGraph(stage)[c] {
    }
    CombinedStaysInside(stage, all);
    var order := StableTopologicalOrder(stage.cases, all);
    if order.Err? {
      return Err(DependencyCycle(order.error));
    }
    r := Ok(Plan(stage.cases, all, declared, inferred, order.value));
  }

  /** The case is declared to depend on `d`, or consumes something that `d` produces. */
  ghost predicate IsNeededBy(stage: Stage, c: string, d: string) {
    || (c in stage.dependsOn && d in stage.dependsOn[c])
    || (c in stage.inputs && exists key <- stage.inputs[c] :: ProducerCase(key, stage.name, stage.cases) == Some(d))
  }

  /** In a plan, a case comes after those it is declared to depend on and the producers of what it consumes. */
  lemma PlanPutsProducersFirst(stage: Stage, plan: Plan, i: nat, d: string)
    requires IsWellFormed(stage) && Cyclic(StageGraph(stage)) == {} && PlanIsSound(stage, plan)
    requires i < |plan.order|
    requires IsNeededBy(stage, plan.order[i], d)
    ensures exists j :: 0 <= j < i && plan.order[j] == d
  {
    var g, c := StageGraph(stage), plan.order[i];
    assert c in Elements(plan.order) && c in stage.cases;
    if !(c in stage.dependsOn && d in stage.dependsOn[c]) {
      var key :| key in stage.inputs[c] && ProducerCase(key, stage.name, stage.cases) == Some(d);
      ProducersArePlain(key, stage.name, stage.cases);
      assert d in Producers(stage, c);
    }
    assert d in g[c];
    StageGraphIsClosed(stage);
    PlanOrderRespectsDependencies(g, stage.cases, plan.order, i, d);
  }

  lemma StageGraphIsClosed(stage: Stage)
    requires IsWellFormed(stage)
    ensures Closed(StageGraph(stage)) && StageGraph(stage).Keys == Elements(stage.cases)
  {
    forall c <- stage.cases ensures forall d <- StageGraph(stage)[c] :: d in stage.cases {
      StageGraphStaysInside(stage, c);
    }
  }

  lemma CombinedStaysInside(stage: Stage, all: Dependencies<string>)
    requires IsWellFormed(stage) && all.Keys == Elements(stage.cases)
    requires forall c <- stage.cases :: Elements(all[c]) == StageGraph(stage)[c]
    ensures StaysInside(stage.cases, all)
    ensures GraphOf(stage.cases, all) == StageGraph(stage)
    ensures forall c <- stage.cases :: c !in StageGraph(stage)[c]
  {
    forall c <- stage.cases
      ensures c in all && (forall d <- all[c] :: d in stage.cases) && c !in StageGraph(stage)[c]
    {
      assert c in Elements(stage.cases);
      StageGraphStaysInside(stage, c);
      forall d <- all[c] ensures d in stage.cases {
        assert d in Elements(all[c]);
      }
    }
  }

  lemma StageGraphStaysInside(stage: Stage, c: string)
    requires IsWellFormed(stage) && c in stage.cases
    ensures c !in StageGraph(stage)[c] && forall d <- StageGraph(stage)[c] :: d in stage.cases
  {
    forall d <- Elements(Declared(stage, c)) ensures d in stage.cases && d != c {
      assert c in stage.dependsOn && d in stage.dependsOn[c];
    }
    forall d <- Producers(stage, c) ensures d in stage.cases && d != c {
      var key :| key in Consumed(stage, c) && ProducerCase(key, stage.name, stage.cases) == Some(d);
      assert c in stage.inputs && key in stage.inputs[c];
    }
  }

  lemma SizeAfterInsert<T>(x: T, s: set<T>)
    ensures |{x} + s| == |s| + if x in s then 0 else 1
  {
    if x in s {
      assert {x} + s == s;
    }
  }

  lemma {:induction false} DistinctIffFullLength<T(!new)>(s: seq<T>)
    ensures |Elements(s)| <= |s|
    ensures Distinct(s) <==> |Elements(s)| == |s|
  {
    if s != [] {
      DistinctIffFullLength(s[1..]);
      assert Elements(s) == {s[0]} + Elements(s[1..]);
      SizeAfterInsert(s[0], Elements(s[1..]));
      assert s == [s[0]] + s[1..];
      assert Distinct(s) <==> s[0] !in s[1..] && Distinct(s[1..]);
    }
  }
}
