/** When the branches of a slot run as if each were alone: a deep copy, one branch, or harmless operators. */
module SlotIsolation {
  import opened Outcomes
  import opened BranchIsolation
  import opened ParallelSlots

  type Object<S, N> = Contents<S, N>

  /** An operator as the mutations of its input followed by its verdict on what it then sees. */
  datatype Body<!S, !N> = Body(program: Program<S, N>, verdict: Object<S, N> -> Result<Object<S, N>, Raised>)

  function Programs<S, N>(bodies: seq<Body<S, N>>): (programs: seq<Program<S, N>>)
    ensures |programs| == |bodies| && forall i | 0 <= i < |bodies| :: programs[i] == bodies[i].program
  {
    seq(|bodies|, i requires 0 <= i < |bodies| => bodies[i].program)
  }

  /** The operators of the slot do what these bodies do, called on a copy of the input. */
  ghost predicate Runs<S, N>(slot: Slot<Object<S, N>>, bodies: seq<Body<S, N>>) {
    |slot.operators| == |bodies| &&
    forall i | 0 <= i < |bodies| :: Own(slot, i) == bodies[i].verdict(Apply(bodies[i].program, slot.value))
  }

  /**
   The observed results are those of an interleaving of the bodies: branch `i` finished at time `ends[i]`
   and gave its verdict on what it saw then.
   */
  ghost predicate IsObserved<S, N>(slot: Slot<Object<S, N>>, bodies: seq<Body<S, N>>, copy: Copy,
                                   schedule: seq<nat>, trace: seq<State<S, N>>, ends: seq<nat>)
  {
    && |slot.operators| == |bodies| == |ends|
    && CopyInput(slot.deepcopies, slot.copies, slot.strict) == Some(copy)
    && IsRun(Programs(bodies), copy, slot.value, schedule, trace)
    && forall i | 0 <= i < |bodies| ::
         && ends[i] < |trace| && Finished(Programs(bodies), trace[ends[i]], i)
         && slot.observed(i) == bodies[i].verdict(Read(trace[ends[i]].heap, trace[ends[i]].roots[i]))
  }

  /** However the branches are interleaved, each yields what its operator makes of its own copy. */
  lemma IsolatedSlotRunsAlone<S(!new), N(!new)>(slot: Slot<Object<S, N>>, bodies: seq<Body<S, N>>, copy: Copy,
                                                schedule: seq<nat>, trace: seq<State<S, N>>, ends: seq<nat>)
    requires Runs(slot, bodies) && IsObserved(slot, bodies, copy, schedule, trace, ends)
    requires slot.deepcopies || |slot.operators| == 1 || Harmless(copy, Programs(bodies))
    ensures RunsAlone(slot)
  {
    var programs := Programs(bodies);
    forall i: nat | i < |bodies| ensures slot.observed(i) == bodies[i].verdict(Apply(bodies[i].program, slot.value)) {
      assert Finished(programs, trace[ends[i]], i);
      EveryInterleavingIsSequential(programs, copy, slot.value, schedule, trace, ends[i], i);
    }
  }
}
