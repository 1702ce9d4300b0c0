/**
 One parallel slot of the pipeline: branches are submitted in batches of the worker limit, and each
 batch is collected under a deadline, cancellation and strict abort.  What the scheduler, the clock
 and other threads do is chosen freely at each step.
 */
module ParallelSlots {
  import opened Outcomes
  import opened RunControls
  import opened BranchIsolation

  /** What a call raised; `escapes` marks what `except Exception` does not catch. */
  datatype Raised = Raised(errorType: string, message: string, cancellation: bool, escapes: bool)

  /** An operator without a callable passes its input through. */
  datatype Operator<!V> = Operator(name: string, run: Option<V -> Result<V, Raised>>)

  /**
   A slot: its branches and input, how the input can be copied, its policy, and whether deadline and
   cancellation can occur.  `late` says whether the deadline has passed when the batch that starts at
   the first number makes the check with the second number.  `observed` is what calling each operator
   actually yields in this run: the branches may see each other's mutations of an input that is not
   copied deeply.
   */
  datatype Slot<!V> = Slot(
    operators: seq<Operator<V>>, value: V, deepcopies: bool, copies: bool, strict: bool, cancelOnError: bool,
    timed: bool, late: (nat, nat) -> bool, cancellable: bool, observed: nat -> Result<V, Raised>)

  datatype Failure = Failure(
    index: nat, operator: string, errorType: string, message: string, timedOut: bool, cancelled: bool,
    stillRunning: bool)

  /** What operator `i` yields on its own copy of the input. */
  function Own<V>(slot: Slot<V>, i: nat): Result<V, Raised>
    requires i < |slot.operators|
  {
    if slot.operators[i].run.None? then Ok(slot.value) else slot.operators[i].run.value(slot.value)
  }

  /** No branch notices what the others do to their inputs (see module `SlotIsolation`). */
  ghost predicate RunsAlone<V>(slot: Slot<V>) {
    forall i | 0 <= i < |slot.operators| :: slot.observed(i) == Own(slot, i)
  }

  /** What branch `i` yields when nobody cancels it: refused without a copy in strict mode, else its call. */
  function Outcome<V>(slot: Slot<V>, i: nat): Result<V, Raised>
    requires i < |slot.operators|
  {
    if CopyInput(slot.deepcopies, slot.copies, slot.strict).None? then
      Err(Raised("TypeError", "parallel input is not safely copyable", false, false))
    else slot.observed(i)
  }

  /** In strict mode an input that cannot be copied at all fails every branch with the same error. */
  lemma UncopyableInputIsRefused<V>(slot: Slot<V>, i: nat)
    requires i < |slot.operators| && slot.strict && !slot.deepcopies
    ensures !slot.copies <==> CopyInput(slot.deepcopies, slot.copies, slot.strict).None?
    ensures !slot.copies ==> Outcome(slot, i).Err? && Outcome(slot, i).error.errorType == "TypeError"
  {
  }

  /** An operator without a callable passes its input through; with a copy of the input a branch yields its call. */
  lemma BranchCalls<V>(slot: Slot<V>, i: nat)
    requires i < |slot.operators|
    ensures slot.operators[i].run.None? ==> Own(slot, i) == Ok(slot.value)
    ensures slot.operators[i].run.Some? ==> Own(slot, i) == slot.operators[i].run.value(slot.value)
    ensures slot.deepcopies || slot.copies || !slot.strict ==> Outcome(slot, i) == slot.observed(i)
  {
  }

  // ---- Accounting ------------------------------------------------------------------------

  function Range(lo: nat, hi: nat): (r: set<nat>)
    ensures forall i: nat :: i in r <==> lo <= i < hi
  {
    if hi <= lo then {} else Range(lo, hi - 1) + {hi - 1}
  }

  lemma {:induction false} RangeSize(lo: nat, hi: nat)
    requires lo <= hi
    ensures |Range(lo, hi)| == hi - lo
  {
    if lo < hi {
      RangeSize(lo, hi - 1);
    }
  }

  function Indices(failures: seq<Failure>): set<nat> {
    set k | 0 <= k < |failures| :: failures[k].index
  }

  ghost predicate Distinct(failures: seq<Failure>) {
    forall a, b | 0 <= a < b < |failures| :: failures[a].index != failures[b].index
  }

  /** Every index of `universe` succeeded or failed, never both and never twice. */
  ghost predicate Tally<V>(universe: set<nat>, successes: map<nat, V>, failures: seq<Failure>) {
    && successes.Keys !! Indices(failures)
    && successes.Keys + Indices(failures) == universe
    && Distinct(failures)
  }

  lemma IndicesConcat(a: seq<Failure>, b: seq<Failure>)
    ensures Indices(a + b) == Indices(a) + Indices(b)
    ensures Distinct(a) && Distinct(b) && Indices(a) !! Indices(b) ==> Distinct(a + b)
  {
    forall i | i in Indices(a) + Indices(b) ensures i in Indices(a + b) {
      if i in Indices(a) {
        var k :| 0 <= k < |a| && a[k].index == i;
        assert (a + b)[k].index == i;
      } else {
        var k :| 0 <= k < |b| && b[k].index == i;
        assert (a + b)[|a| + k].index == i;
      }
    }
    forall k | 0 <= k < |a| ensures a[k].index in Indices(a) {
    }
    forall k | 0 <= k < |b| ensures b[k].index in Indices(b) {
    }
  }

  lemma IndicesSnoc(fs: seq<Failure>, f: Failure)
    ensures Indices(fs + [f]) == Indices(fs) + {f.index}
    ensures Distinct(fs) && f.index !in Indices(fs) ==> Distinct(fs + [f])
  {
    assert [f][0] == f;
    assert Indices([f]) == {f.index};
    IndicesConcat(fs, [f]);
  }

  lemma TallyJoins<V>(u: set<nat>, s: map<nat, V>, f: seq<Failure>, v: set<nat>, t: map<nat, V>, g: seq<Failure>)
    requires Tally(u, s, f) && Tally(v, t, g) && u !! v
    ensures Tally(u + v, s + t, f + g)
  {
    IndicesConcat(f, g);
  }

  lemma TallyAddsFailure<V>(u: set<nat>, s: map<nat, V>, fs: seq<Failure>, f: Failure)
    requires Tally(u, s, fs) && f.index !in u
    ensures Tally(u + {f.index}, s, fs + [f])
  {
    IndicesSnoc(fs, f);
  }

  ghost predicate Sound<V>(slot: Slot<V>, successes: map<nat, V>) {
    forall i <- successes :: i < |slot.operators| && Outcome(slot, i) == Ok(successes[i])
  }

  /** The failure reports what its branch itself raised. */
  ghost predicate Owned<V>(slot: Slot<V>, f: Failure) {
    && f.index < |slot.operators|
    && Outcome(slot, f.index).Err?
    && var e := Outcome(slot, f.index).error;
       f == Failure(f.index, slot.operators[f.index].name, e.errorType, e.message, false, e.cancellation, false)
  }

  /** A branch raised this, and no handler of the slot catches it. */
  ghost predicate Escapes<V>(slot: Slot<V>, raised: Raised) {
    raised.escapes && exists i | 0 <= i < |slot.operators| :: Outcome(slot, i) == Err(raised)
  }

  ghost predicate AllOwned<V>(slot: Slot<V>, failures: seq<Failure>) {
    forall k | 0 <= k < |failures| :: Owned(slot, failures[k])
  }

  const DEADLINE := "parallel slot deadline exceeded"

  const STRICT_ABORT := "cancelled after strict branch failure"

  /** The report of a branch that was given up while pending; it never runs on once its cancellation took effect. */
  ghost predicate Dropped<V>(slot: Slot<V>, f: Failure, reason: string, timedOut: bool) {
    && f.index < |slot.operators| && f.operator == slot.operators[f.index].name
    && f.message == reason && f.timedOut == timedOut && !(f.cancelled && f.stillRunning)
    && f.errorType == if timedOut then "TimeoutError" else "CancelledError"
  }

  /** The branch gave up when it noticed a cancellation. */
  predicate Noticed(f: Failure) {
    f.errorType == "PipelineCancellationError" && f.cancelled && !f.timedOut && !f.stillRunning
  }

  /** A branch fails by itself, by noticing a cancellation, or by being given up (at a deadline, if any). */
  ghost predicate Explained<V>(slot: Slot<V>, f: Failure) {
    && f.index < |slot.operators| && f.operator == slot.operators[f.index].name
    && (|| Owned(slot, f)
        || Noticed(f)
        || (Dropped(slot, f, f.message, f.timedOut) && (f.timedOut ==> slot.timed && f.message == DEADLINE)))
  }

  ghost predicate AllExplained<V>(slot: Slot<V>, failures: seq<Failure>) {
    forall k | 0 <= k < |failures| :: Explained(slot, failures[k])
  }

  ghost predicate AllFinished(failures: seq<Failure>) {
    forall k | 0 <= k < |failures| :: !failures[k].timedOut && !failures[k].stillRunning
  }

  /** What collecting the batch of branches `lo` to `hi` promises; `quiet` says that nobody interfered. */
  ghost predicate Collected<V>(slot: Slot<V>, lo: nat, hi: nat, successes: map<nat, V>, failures: seq<Failure>,
                               abort: bool, quiet: bool)
  {
    && Tally(Range(lo, hi), successes, failures)
    && Sound(slot, successes) && AllExplained(slot, failures)
    && (!abort ==> AllFinished(failures))
    && (quiet && !abort ==> AllOwned(slot, failures))
    && (quiet && abort ==>
          && slot.strict && slot.cancelOnError && hi - lo > 1
          && exists k | 0 <= k < |failures| :: Owned(slot, failures[k]))
  }

  // ---- The course of a batch -------------------------------------------------------------

  /** Why the collection of a batch ended. */
  datatype Cause = Completed | Cancelled(reason: string) | DeadlinePassed | StrictFailure

  /** The branches `lo` to `hi`, those taken in each round of waiting or polling, and the end. */
  datatype Batch = Batch(lo: nat, hi: nat, rounds: seq<set<nat>>, cause: Cause)

  function Taken(rounds: seq<set<nat>>): set<nat> {
    if rounds == [] then {} else Taken(rounds[..|rounds| - 1]) + rounds[|rounds| - 1]
  }

  /** A failure read from a branch is what it raised, or its notice of a cancellation unless it is `quiet`. */
  ghost predicate Found<V>(slot: Slot<V>, f: Failure, quiet: bool) {
    Owned(slot, f) || (!quiet && Noticed(f))
  }

  ghost predicate TakenAreFound<V>(slot: Slot<V>, b: Batch, failures: set<Failure>, quiet: bool) {
    forall f <- failures :: f.index in Taken(b.rounds) ==> Found(slot, f, quiet)
  }

  ghost predicate AllFound<V>(slot: Slot<V>, failures: seq<Failure>, quiet: bool) {
    forall k | 0 <= k < |failures| :: Found(slot, failures[k], quiet)
  }

  /** Reports of branches that were still pending say nothing about those taken. */
  lemma DroppedAreNotTaken<V>(slot: Slot<V>, b: Batch, failures: seq<Failure>, dropped: seq<Failure>, quiet: bool)
    requires AllFound(slot, failures, quiet) && Indices(dropped) !! Taken(b.rounds)
    ensures TakenAreFound(slot, b, FailureSet(failures + dropped), quiet)
  {
    forall f <- FailureSet(failures + dropped) | f.index in Taken(b.rounds) ensures Found(slot, f, quiet) {
      if f in dropped {
        InIndices(f, dropped);
      } else {
        var k :| 0 <= k < |failures| && failures[k] == f;
      }
    }
  }

  /** Some branch of the round failed. */
  ghost predicate FailsIn(round: set<nat>, failures: set<Failure>) {
    exists f <- failures :: f.index in round
  }

  function ReasonOf(cause: Cause): string {
    match cause
    case Completed => ""
    case Cancelled(reason) => reason
    case DeadlinePassed => DEADLINE
    case StrictFailure => STRICT_ABORT
  }

  /** Round `k` left siblings pending. */
  ghost predicate LeavesPending(b: Batch, k: nat)
    requires k < |b.rounds|
  {
    Taken(b.rounds[..k + 1]) != Range(b.lo, b.hi)
  }

  /** Each round was reached because the deadline had not passed and no earlier round had to abort. */
  ghost predicate RoundsAreDue<V>(slot: Slot<V>, b: Batch, failures: set<Failure>) {
    forall k: nat | k < |b.rounds| ::
      && !(slot.timed && slot.late(b.lo, k))
      && (slot.strict && slot.cancelOnError && FailsIn(b.rounds[k], failures) && LeavesPending(b, k) ==>
            k == |b.rounds| - 1 && b.cause.StrictFailure?)
  }

  /** The branches that were pending at the end are each reported as dropped for its cause. */
  ghost predicate RestIsDropped<V>(slot: Slot<V>, b: Batch, failures: set<Failure>) {
    forall i <- Range(b.lo, b.hi) - Taken(b.rounds) :: exists f <- failures ::
      f.index == i && Dropped(slot, f, ReasonOf(b.cause), b.cause.DeadlinePassed?)
  }

  /** The course of a batch with these failures: when it must go on, when it must abort, and what it then reports. */
  ghost predicate Ran<V>(slot: Slot<V>, b: Batch, failures: set<Failure>) {
    && Taken(b.rounds) <= Range(b.lo, b.hi)
    && RoundsAreDue(slot, b, failures)
    && RestIsDropped(slot, b, failures)
    && match b.cause
       case Completed => Taken(b.rounds) == Range(b.lo, b.hi)
       case Cancelled(_) => true
       case DeadlinePassed => slot.timed
       case StrictFailure =>
         && slot.strict && slot.cancelOnError && b.rounds != []
         && FailsIn(b.rounds[|b.rounds| - 1], failures) && LeavesPending(b, |b.rounds| - 1)
  }

  function FailureSet(failures: seq<Failure>): set<Failure> {
    set f | f in failures
  }

  /** The batch so far, with `pending` still to come and no reason to stop. */
  ghost predicate Running<V>(slot: Slot<V>, lo: nat, hi: nat, pending: set<nat>, rounds: seq<set<nat>>,
                             failures: seq<Failure>)
  {
    && pending <= Range(lo, hi) && Taken(rounds) == Range(lo, hi) - pending
    && Indices(failures) <= Taken(rounds)
    && forall k: nat | k < |rounds| ::
         && !(slot.timed && slot.late(lo, k))
         && (slot.strict && slot.cancelOnError && FailsIn(rounds[k], FailureSet(failures)) ==>
               Taken(rounds[..k + 1]) == Range(lo, hi))
  }

  lemma {:induction false} TakenGrows(rounds: seq<set<nat>>, k: nat)
    requires k < |rounds|
    ensures rounds[k] <= Taken(rounds)
  {
    if k < |rounds| - 1 {
      TakenGrows(rounds[..|rounds| - 1], k);
    }
  }

  /** Failures of later branches do not make an earlier round fail. */
  lemma OldRoundsStay(rounds: seq<set<nat>>, failures: seq<Failure>, more: seq<Failure>, k: nat)
    requires k < |rounds| && Indices(more) !! Taken(rounds)
    ensures FailsIn(rounds[k], FailureSet(failures + more)) <==> FailsIn(rounds[k], FailureSet(failures))
  {
    TakenGrows(rounds, k);
    if FailsIn(rounds[k], FailureSet(failures + more)) {
      var f :| f in FailureSet(failures + more) && f.index in rounds[k];
      if f in more {
        InIndices(f, more);
      }
    }
    if FailsIn(rounds[k], FailureSet(failures)) {
      var f :| f in FailureSet(failures) && f.index in rounds[k];
      assert f in failures + more;
    }
  }

  lemma FailsInIff(round: set<nat>, taken: set<nat>, failures: seq<Failure>, failed: seq<Failure>)
    requires Indices(failures) !! round && Indices(failed) <= round
    ensures FailsIn(round, FailureSet(failures + failed)) <==> failed != []
  {
    if failed != [] {
      InIndices(failed[0], failed);
      assert failed[0] in failures + failed;
    }
    if FailsIn(round, FailureSet(failures + failed)) {
      var f :| f in failures + failed && f.index in round;
      if f in failures {
        InIndices(f, failures);
      }
    }
  }

  /** One more round without a reason to stop after it. */
  lemma RunningContinues<V>(slot: Slot<V>, lo: nat, hi: nat, pending: set<nat>, rounds: seq<set<nat>>,
                            failures: seq<Failure>, done: set<nat>, failed: seq<Failure>)
    requires Running(slot, lo, hi, pending, rounds, failures)
    requires done <= pending && Indices(failed) <= done && !(slot.timed && slot.late(lo, |rounds|))
    requires failed != [] && slot.strict && slot.cancelOnError ==> pending - done == {}
    ensures Running(slot, lo, hi, pending - done, rounds + [done], failures + failed)
  {
    var after := rounds + [done];
    assert after[..|rounds|] == rounds;
    assert Taken(after) == Range(lo, hi) - (pending - done);
    IndicesConcat(failures, failed);
    FailsInIff(done, Taken(rounds), failures, failed);
    forall k: nat | k < |after|
      ensures !(slot.timed && slot.late(lo, k))
      ensures slot.strict && slot.cancelOnError && FailsIn(after[k], FailureSet(failures + failed)) ==>
                Taken(after[..k + 1]) == Range(lo, hi)
    {
      if k < |rounds| {
        OldRoundsStay(rounds, failures, failed, k);
        assert after[..k + 1] == rounds[..k + 1];
      } else {
        assert after[..k + 1] == after;
      }
    }
  }

  /** A batch with nothing pending has completed. */
  lemma RunningEnds<V>(slot: Slot<V>, lo: nat, hi: nat, rounds: seq<set<nat>>, failures: seq<Failure>)
    requires Running(slot, lo, hi, {}, rounds, failures)
    ensures Ran(slot, Batch(lo, hi, rounds, Completed), FailureSet(failures))
  {
    assert Range(lo, hi) - {} == Range(lo, hi);
  }

  lemma RestDropped<V>(slot: Slot<V>, b: Batch, failures: seq<Failure>, dropped: seq<Failure>)
    requires Range(b.lo, b.hi) - Taken(b.rounds) == Indices(dropped)
    requires forall k | 0 <= k < |dropped| ::
               Dropped(slot, dropped[k], ReasonOf(b.cause), b.cause.DeadlinePassed?)
    ensures RestIsDropped(slot, b, FailureSet(failures + dropped))
  {
    forall i <- Range(b.lo, b.hi) - Taken(b.rounds)
      ensures exists f <- FailureSet(failures + dropped) ::
                f.index == i && Dropped(slot, f, ReasonOf(b.cause), b.cause.DeadlinePassed?)
    {
      assert i in Indices(dropped);
      var k :| 0 <= k < |dropped| && dropped[k].index == i;
      assert dropped[k] in failures + dropped;
    }
  }

  /** Stopping at a check, before another round. */
  lemma RunningStops<V>(slot: Slot<V>, b: Batch, pending: set<nat>, failures: seq<Failure>, dropped: seq<Failure>)
    requires Running(slot, b.lo, b.hi, pending, b.rounds, failures)
    requires Indices(dropped) == pending
    requires forall k | 0 <= k < |dropped| ::
               Dropped(slot, dropped[k], ReasonOf(b.cause), b.cause.DeadlinePassed?)
    requires b.cause.Cancelled? || (b.cause.DeadlinePassed? && slot.timed)
    ensures Ran(slot, b, FailureSet(failures + dropped))
  {
    assert Range(b.lo, b.hi) - Taken(b.rounds) == pending;
    RestDropped(slot, b, failures, dropped);
    forall k: nat | k < |b.rounds|
      ensures FailsIn(b.rounds[k], FailureSet(failures + dropped)) <==> FailsIn(b.rounds[k], FailureSet(failures))
    {
      OldRoundsStay(b.rounds, failures, dropped, k);
    }
  }

  /** After a round with a failure that left siblings pending, no earlier round was a reason to stop. */
  lemma AbortingRounds<V>(slot: Slot<V>, lo: nat, hi: nat, pending: set<nat>, rounds: seq<set<nat>>,
                          failures: seq<Failure>, done: set<nat>, more: seq<Failure>)
    requires Running(slot, lo, hi, pending, rounds, failures)
    requires Indices(more) !! Taken(rounds) && !(slot.timed && slot.late(lo, |rounds|))
    ensures RoundsAreDue(slot, Batch(lo, hi, rounds + [done], StrictFailure), FailureSet(failures + more))
  {
    var b := Batch(lo, hi, rounds + [done], StrictFailure);
    forall k: nat | k < |b.rounds|
      ensures !(slot.timed && slot.late(lo, k))
      ensures FailsIn(b.rounds[k], FailureSet(failures + more)) && LeavesPending(b, k) ==>
                k == |b.rounds| - 1 || !slot.strict || !slot.cancelOnError
    {
      if k < |rounds| {
        OldRoundsStay(rounds, failures, more, k);
        assert b.rounds[k] == rounds[k] && b.rounds[..k + 1] == rounds[..k + 1];
      }
    }
  }

  /** Stopping after a round with a failure that left siblings pending. */
  lemma RunningAborts<V>(slot: Slot<V>, lo: nat, hi: nat, pending: set<nat>, rounds: seq<set<nat>>,
                         failures: seq<Failure>, done: set<nat>, failed: seq<Failure>, dropped: seq<Failure>)
    requires Running(slot, lo, hi, pending, rounds, failures)
    requires done <= pending && Indices(failed) <= done && !(slot.timed && slot.late(lo, |rounds|))
    requires slot.strict && slot.cancelOnError && failed != [] && pending - done != {}
    requires Indices(dropped) == pending - done
    requires forall k | 0 <= k < |dropped| :: Dropped(slot, dropped[k], STRICT_ABORT, false)
    ensures Ran(slot, Batch(lo, hi, rounds + [done], StrictFailure), FailureSet(failures + failed + dropped))
  {
    var b := Batch(lo, hi, rounds + [done], StrictFailure);
    TakenOneMore(rounds, done);
    assert Range(lo, hi) - Taken(b.rounds) == pending - done;
    RestDropped(slot, b, failures + failed, dropped);
    IndicesConcat(failed, dropped);
    assert failures + failed + dropped == failures + (failed + dropped);
    AbortingRounds(slot, lo, hi, pending, rounds, failures, done, failed + dropped);
    LastRoundFails(b, failures, done, failed, dropped);
  }

  lemma TakenOneMore(rounds: seq<set<nat>>, done: set<nat>)
    ensures Taken(rounds + [done]) == Taken(rounds) + done
  {
    assert (rounds + [done])[..|rounds|] == rounds;
  }

  lemma LastRoundFails(b: Batch, failures: seq<Failure>, done: set<nat>, failed: seq<Failure>, dropped: seq<Failure>)
    requires b.rounds != [] && b.rounds[|b.rounds| - 1] == done && Indices(failed) <= done && failed != []
    requires Taken(b.rounds) != Range(b.lo, b.hi)
    ensures FailsIn(b.rounds[|b.rounds| - 1], FailureSet(failures + failed + dropped))
    ensures LeavesPending(b, |b.rounds| - 1)
  {
    InIndices(failed[0], failed);
    assert failed[0] in failures + failed + dropped;
    assert b.rounds[..|b.rounds|] == b.rounds;
  }

  lemma RunningBegins<V>(slot: Slot<V>, lo: nat, hi: nat)
    ensures Running(slot, lo, hi, Range(lo, hi), [], [])
  {
    assert Range(lo, hi) - Range(lo, hi) == {};
  }

  // ---- Collecting one batch --------------------------------------------------------------

  method CancelPending<V>(slot: Slot<V>, pending: set<nat>, reason: string, timedOut: bool, control: RunControl)
      returns (failures: seq<Failure>)
    requires forall i <- pending :: i < |slot.operators|
    modifies control`event, control`cause
    ensures control.event
    ensures Indices(failures) == pending && Distinct(failures)
    ensures forall k | 0 <= k < |failures| :: Dropped(slot, failures[k], reason, timedOut)
  {
    control.Cancel(reason);
    failures := [];
    var rest := pending;
    while rest != {}
      invariant control.event
      invariant rest <= pending && Indices(failures) == pending - rest && Distinct(failures)
      invariant forall k | 0 <= k < |failures| :: Dropped(slot, failures[k], reason, timedOut)
    {
      var i: nat :| i in rest;
      var cancelled: bool := *;
      var done: bool := *;
      var kind := if timedOut then "TimeoutError" else "CancelledError";
      var failure :=
        Failure(i, slot.operators[i].name, kind, reason, timedOut, cancelled, !cancelled && !done);
      IndicesSnoc(failures, failure);
      failures := failures + [failure];
      rest := rest - {i};
    }
    assert pending - rest == pending;
  }

  /** What a branch gives up when it notices a cancellation. */
  ghost predicate IsNotice<V>(outcome: Result<V, Raised>) {
    outcome.Err? && outcome.error.errorType == "PipelineCancellationError" && outcome.error.cancellation
    && !outcome.error.escapes
  }

  /** The result of a finished branch, which may have noticed a cancellation. */
  method ReadResult<V>(slot: Slot<V>, i: nat, control: RunControl) returns (outcome: Result<V, Raised>)
    requires control.Linked() && i < |slot.operators|
    modifies control.lineage
    ensures outcome == Outcome(slot, i) || IsNotice(outcome)
    ensures !slot.cancellable && !old(control.IsSet()) ==> outcome == Outcome(slot, i)
    ensures !slot.cancellable ==> control.IsSet() == old(control.IsSet())
    ensures old(control.IsSet()) ==> control.IsSet()
  {
    control.Interfere(slot.cancellable);
    var noticed: bool := *;
    outcome := Outcome(slot, i);
    if control.IsSet() && noticed {
      outcome := Err(Raised("PipelineCancellationError", control.Reason(), true, false));
    }
  }

  /** Read the results of finished branches; a branch may have noticed a cancellation. */
  method TakeDone<V>(slot: Slot<V>, done: set<nat>, control: RunControl)
      returns (successes: map<nat, V>, failures: seq<Failure>, escaped: Option<Raised>)
    requires control.Linked() && forall i <- done :: i < |slot.operators|
    modifies control.lineage
    ensures escaped.None? ==> Tally(done, successes, failures) && Sound(slot, successes)
    ensures escaped.None? ==> AllFinished(failures) && AllExplained(slot, failures)
    ensures escaped.Some? ==> Escapes(slot, escaped.value)
    ensures escaped.None? ==> AllFound(slot, failures, !slot.cancellable && !old(control.IsSet()))
    ensures !slot.cancellable ==> control.IsSet() == old(control.IsSet())
  {
    successes, failures, escaped := map[], [], None;
    var rest := done;
    while rest != {}
      invariant rest <= done && Tally(done - rest, successes, failures)
      invariant Sound(slot, successes) && AllFinished(failures) && AllExplained(slot, failures)
      invariant AllFound(slot, failures, !slot.cancellable && !old(control.IsSet()))
      invariant !slot.cancellable ==> control.IsSet() == old(control.IsSet())
    {
      var i: nat :| i in rest;
      var outcome := ReadResult(slot, i, control);
      ghost var before := done - rest;
      if outcome.Ok? {
        successes := successes[i := outcome.value];
      } else if outcome.error.escapes {
        escaped := Some(outcome.error);
        return;
      } else {
        var e := outcome.error;
        var failure :=
          Failure(i, slot.operators[i].name, e.errorType, e.message, false, e.cancellation, false);
        TallyAddsFailure(before, successes, failures, failure);
        failures := failures + [failure];
      }
      rest := rest - {i};
      assert done - rest == before + {i};
    }
    assert done - rest == done;
  }

  /** A batch under collection: what is not pending is accounted for, and nobody was dropped. */
  ghost predicate Progress<V>(slot: Slot<V>, lo: nat, hi: nat, pending: set<nat>, successes: map<nat, V>,
                              failures: seq<Failure>, quiet: bool)
  {
    && pending <= Range(lo, hi) && Tally(Range(lo, hi) - pending, successes, failures)
    && Sound(slot, successes) && AllFinished(failures) && AllExplained(slot, failures)
    && AllFound(slot, failures, quiet)
  }

  lemma ProgressBegins<V>(slot: Slot<V>, lo: nat, hi: nat, quiet: bool)
    ensures Progress(slot, lo, hi, Range(lo, hi), map[], [], quiet)
  {
    assert Range(lo, hi) - Range(lo, hi) == {};
  }

  lemma ProgressContinues<V>(slot: Slot<V>, lo: nat, hi: nat, pending: set<nat>, successes: map<nat, V>,
                             failures: seq<Failure>, done: set<nat>, ok: map<nat, V>, failed: seq<Failure>, quiet: bool)
    requires Progress(slot, lo, hi, pending, successes, failures, quiet)
    requires done <= pending && Tally(done, ok, failed) && Sound(slot, ok)
    requires AllFinished(failed) && AllExplained(slot, failed) && AllFound(slot, failed, quiet)
    ensures Progress(slot, lo, hi, pending - done, successes + ok, failures + failed, quiet)
  {
    TallyJoins(Range(lo, hi) - pending, successes, failures, done, ok, failed);
    assert Range(lo, hi) - pending + done == Range(lo, hi) - (pending - done);
  }

  lemma ProgressEnds<V>(slot: Slot<V>, lo: nat, hi: nat, successes: map<nat, V>, failures: seq<Failure>, quiet: bool)
    requires Progress(slot, lo, hi, {}, successes, failures, quiet)
    ensures Collected(slot, lo, hi, successes, failures, false, quiet)
  {
    assert Range(lo, hi) - {} == Range(lo, hi);
  }

  /** Aborting reports the rest of the batch; without interference only a strict failure aborts. */
  lemma ProgressAborts<V>(slot: Slot<V>, lo: nat, hi: nat, pending: set<nat>, successes: map<nat, V>,
                          failures: seq<Failure>, dropped: seq<Failure>, reason: string, timedOut: bool, quiet: bool)
    requires Progress(slot, lo, hi, pending, successes, failures, quiet)
    requires Indices(dropped) == pending && Distinct(dropped)
    requires forall k | 0 <= k < |dropped| :: Dropped(slot, dropped[k], reason, timedOut)
    requires timedOut ==> slot.timed && reason == DEADLINE
    requires quiet ==> slot.strict && slot.cancelOnError && hi - lo > 1 && failures != []
    ensures Collected(slot, lo, hi, successes, failures + dropped, true, quiet)
  {
    var none: map<nat, V> := map[];
    assert Tally(pending, none, dropped);
    TallyJoins(Range(lo, hi) - pending, successes, failures, pending, none, dropped);
    assert Range(lo, hi) - pending + pending == Range(lo, hi) && successes + none == successes;
    if quiet {
      assert Owned(slot, failures[0]) && failures[0] == (failures + dropped)[0];
    }
  }

  lemma SiblingsPending(lo: nat, hi: nat, done: set<nat>, pending: set<nat>)
    requires done != {} && pending != {} && done !! pending && done + pending <= Range(lo, hi)
    ensures hi - lo > 1
  {
    var a: nat :| a in done;
    var b: nat :| b in pending;
    assert a in Range(lo, hi) && b in Range(lo, hi) && a != b;
  }

  /** A batch under collection, with what it accounts for and the rounds so far. */
  ghost predicate UnderWay<V>(slot: Slot<V>, lo: nat, hi: nat, pending: set<nat>, successes: map<nat, V>,
                              failures: seq<Failure>, quiet: bool, rounds: seq<set<nat>>)
  {
    Progress(slot, lo, hi, pending, successes, failures, quiet) && Running(slot, lo, hi, pending, rounds, failures)
  }

  /** The batch is over, and what is promised of it holds. */
  ghost predicate Over<V>(slot: Slot<V>, b: Batch, successes: map<nat, V>, failures: seq<Failure>, quiet: bool) {
    && Collected(slot, b.lo, b.hi, successes, failures, !b.cause.Completed?, quiet)
    && Ran(slot, b, FailureSet(failures)) && TakenAreFound(slot, b, FailureSet(failures), quiet)
  }

  lemma UnderWayBegins<V>(slot: Slot<V>, lo: nat, hi: nat, quiet: bool)
    ensures UnderWay(slot, lo, hi, Range(lo, hi), map[], [], quiet, [])
  {
    ProgressBegins(slot, lo, hi, quiet);
    RunningBegins(slot, lo, hi);
  }

  lemma UnderWayContinues<V>(slot: Slot<V>, lo: nat, hi: nat, pending: set<nat>, successes: map<nat, V>,
                             failures: seq<Failure>, done: set<nat>, ok: map<nat, V>, failed: seq<Failure>,
                             quiet: bool, rounds: seq<set<nat>>)
    requires UnderWay(slot, lo, hi, pending, successes, failures, quiet, rounds)
    requires done <= pending && Tally(done, ok, failed) && Sound(slot, ok)
    requires AllFinished(failed) && AllExplained(slot, failed) && AllFound(slot, failed, quiet)
    requires !(slot.timed && slot.late(lo, |rounds|))
    requires failed != [] && slot.strict && slot.cancelOnError ==> pending - done == {}
    ensures UnderWay(slot, lo, hi, pending - done, successes + ok, failures + failed, quiet, rounds + [done])
  {
    ProgressContinues(slot, lo, hi, pending, successes, failures, done, ok, failed, quiet);
    RunningContinues(slot, lo, hi, pending, rounds, failures, done, failed);
  }

  /** A poll that finds nothing done. */
  lemma UnderWayIdles<V>(slot: Slot<V>, lo: nat, hi: nat, pending: set<nat>, successes: map<nat, V>,
                         failures: seq<Failure>, quiet: bool, rounds: seq<set<nat>>)
    requires UnderWay(slot, lo, hi, pending, successes, failures, quiet, rounds)
    requires !(slot.timed && slot.late(lo, |rounds|))
    ensures UnderWay(slot, lo, hi, pending, successes, failures, quiet, rounds + [{}])
  {
    RunningContinues(slot, lo, hi, pending, rounds, failures, {}, []);
    assert pending - {} == pending && failures + [] == failures;
  }

  lemma UnderWayEnds<V>(slot: Slot<V>, lo: nat, hi: nat, successes: map<nat, V>, failures: seq<Failure>,
                        quiet: bool, rounds: seq<set<nat>>)
    requires UnderWay(slot, lo, hi, {}, successes, failures, quiet, rounds)
    ensures Over(slot, Batch(lo, hi, rounds, Completed), successes, failures, quiet)
  {
    ProgressEnds(slot, lo, hi, successes, failures, quiet);
    DroppedAreNotTaken(slot, Batch(lo, hi, rounds, Completed), failures, [], quiet);
    assert failures + [] == failures;
    RunningEnds(slot, lo, hi, rounds, failures);
  }

  lemma UnderWayStops<V>(slot: Slot<V>, b: Batch, pending: set<nat>, successes: map<nat, V>,
                         failures: seq<Failure>, dropped: seq<Failure>, quiet: bool)
    requires UnderWay(slot, b.lo, b.hi, pending, successes, failures, quiet, b.rounds) && !quiet
    requires Indices(dropped) == pending && Distinct(dropped)
    requires forall k | 0 <= k < |dropped| ::
               Dropped(slot, dropped[k], ReasonOf(b.cause), b.cause.DeadlinePassed?)
    requires b.cause.Cancelled? || (b.cause.DeadlinePassed? && slot.timed)
    ensures Over(slot, b, successes, failures + dropped, quiet)
  {
    ProgressAborts(slot, b.lo, b.hi, pending, successes, failures, dropped, ReasonOf(b.cause), b.cause.DeadlinePassed?,
                   quiet);
    RunningStops(slot, b, pending, failures, dropped);
    DroppedAreNotTaken(slot, b, failures, dropped, quiet);
  }

  lemma UnderWayAborts<V>(slot: Slot<V>, lo: nat, hi: nat, pending: set<nat>, successes: map<nat, V>,
                          failures: seq<Failure>, done: set<nat>, ok: map<nat, V>, failed: seq<Failure>,
                          dropped: seq<Failure>, quiet: bool, rounds: seq<set<nat>>)
    requires UnderWay(slot, lo, hi, pending, successes, failures, quiet, rounds)
    requires done <= pending && Tally(done, ok, failed) && Sound(slot, ok)
    requires AllFinished(failed) && AllExplained(slot, failed) && AllFound(slot, failed, quiet)
    requires !(slot.timed && slot.late(lo, |rounds|))
    requires done != {} && failed != [] && slot.strict && slot.cancelOnError && pending - done != {}
    requires Indices(dropped) == pending - done && Distinct(dropped)
    requires forall k | 0 <= k < |dropped| :: Dropped(slot, dropped[k], STRICT_ABORT, false)
    ensures Over(slot, Batch(lo, hi, rounds + [done], StrictFailure), successes + ok, failures + failed + dropped,
                 quiet)
  {
    ProgressContinues(slot, lo, hi, pending, successes, failures, done, ok, failed, quiet);
    SiblingsPending(lo, hi, done, pending - done);
    ProgressAborts(slot, lo, hi, pending - done, successes + ok, failures + failed, dropped, STRICT_ABORT, false,
                   quiet);
    RunningAborts(slot, lo, hi, pending, rounds, failures, done, failed, dropped);
    TakenOneMore(rounds, done);
    DroppedAreNotTaken(slot, Batch(lo, hi, rounds + [done], StrictFailure), failures + failed, dropped, quiet);
  }

  /** Collect the futures of one batch as they complete. */
  method CollectFutureBatch<V>(slot: Slot<V>, lo: nat, hi: nat, control: RunControl)
      returns (successes: map<nat, V>, failures: seq<Failure>, abort: bool, escaped: Option<Raised>,
               ghost batch: Batch)
    requires lo <= hi <= |slot.operators| && control.Linked()
    modifies control.lineage
    ensures batch.lo == lo && batch.hi == hi && (abort <==> !batch.cause.Completed?)
    ensures if escaped.Some? then Escapes(slot, escaped.value) && !abort
            else Over(slot, batch, successes, failures, !slot.timed && !slot.cancellable && !old(control.IsSet()))
    ensures batch.cause.Cancelled? ==> slot.cancellable || old(control.IsSet())
    ensures old(control.IsSet()) && lo < hi ==> batch.rounds == [] && batch.cause.Cancelled?
    ensures abort ==> control.event
    ensures !abort && !slot.cancellable ==> control.IsSet() == old(control.IsSet())
  {
    ghost var quiet := !slot.timed && !slot.cancellable && !control.IsSet();
    successes, failures, abort, escaped := map[], [], false, None;
    batch := Batch(lo, hi, [], Completed);
    var pending, check := Range(lo, hi), 0;
    UnderWayBegins(slot, lo, hi, quiet);
    while pending != {}
      invariant UnderWay(slot, lo, hi, pending, successes, failures, quiet, batch.rounds)
      invariant batch == Batch(lo, hi, batch.rounds, Completed) && check == |batch.rounds|
      invariant old(control.IsSet()) ==> control.IsSet() && batch.rounds == [] && pending == Range(lo, hi)
      invariant !slot.cancellable ==> control.IsSet() == old(control.IsSet())
      decreases pending
    {
      control.Interfere(slot.cancellable);
      if control.IsSet() {
        var reason := control.Reason();
        var dropped := CancelPending(slot, pending, reason, false, control);
        batch := batch.(cause := Cancelled(reason));
        UnderWayStops(slot, batch, pending, successes, failures, dropped, quiet);
        return successes, failures + dropped, true, None, batch;
      }
      if slot.timed && slot.late(lo, check) {
        var dropped := CancelPending(slot, pending, DEADLINE, true, control);
        batch := batch.(cause := DeadlinePassed);
        UnderWayStops(slot, batch, pending, successes, failures, dropped, quiet);
        return successes, failures + dropped, true, None, batch;
      }
      // Waiting ends when something is done or at the deadline.
      assert pending <= pending;
      var done: set<nat> :| done <= pending && (!slot.timed ==> done != {});
      if done == {} {
        var dropped := CancelPending(slot, pending, DEADLINE, true, control);
        batch := batch.(cause := DeadlinePassed);
        UnderWayStops(slot, batch, pending, successes, failures, dropped, quiet);
        return successes, failures + dropped, true, None, batch;
      }
      var ok, failed, thrown := TakeDone(slot, done, control);
      if thrown.Some? {
        return successes, failures, false, thrown, batch;
      }
      if failed != [] && slot.strict && slot.cancelOnError && pending - done != {} {
        var dropped := CancelPending(slot, pending - done, STRICT_ABORT, false, control);
        UnderWayAborts(slot, lo, hi, pending, successes, failures, done, ok, failed, dropped, quiet, batch.rounds);
        batch := Batch(lo, hi, batch.rounds + [done], StrictFailure);
        return successes + ok, failures + failed + dropped, true, None, batch;
      }
      UnderWayContinues(slot, lo, hi, pending, successes, failures, done, ok, failed, quiet, batch.rounds);
      successes, failures, pending := successes + ok, failures + failed, pending - done;
      batch, check := batch.(rounds := batch.rounds + [done]), check + 1;
    }
    UnderWayEnds(slot, lo, hi, successes, failures, quiet, batch.rounds);
  }

  /**
   Collect the handles of one batch by polling.  Some handle is done after finitely many idle polls,
   or the slot is cancelled or past its deadline; the poll count until then is chosen freely.
   */
  method CollectPoolBatch<V>(slot: Slot<V>, lo: nat, hi: nat, control: RunControl)
      returns (successes: map<nat, V>, failures: seq<Failure>, abort: bool, escaped: Option<Raised>,
               ghost batch: Batch)
    requires lo <= hi <= |slot.operators| && control.Linked()
    modifies control.lineage
    ensures batch.lo == lo && batch.hi == hi && (abort <==> !batch.cause.Completed?)
    ensures if escaped.Some? then Escapes(slot, escaped.value) && !abort
            else Over(slot, batch, successes, failures, !slot.timed && !slot.cancellable && !old(control.IsSet()))
    ensures batch.cause.Cancelled? ==> slot.cancellable || old(control.IsSet())
    ensures old(control.IsSet()) && lo < hi ==> batch.rounds == [] && batch.cause.Cancelled?
    ensures abort ==> control.event
    ensures !abort && !slot.cancellable ==> control.IsSet() == old(control.IsSet())
  {
    ghost var quiet := !slot.timed && !slot.cancellable && !control.IsSet();
    successes, failures, abort, escaped := map[], [], false, None;
    batch := Batch(lo, hi, [], Completed);
    var pending, check := Range(lo, hi), 0;
    var idlePolls: nat := *;
    UnderWayBegins(slot, lo, hi, quiet);
    while pending != {}
      invariant UnderWay(slot, lo, hi, pending, successes, failures, quiet, batch.rounds)
      invariant batch == Batch(lo, hi, batch.rounds, Completed) && check == |batch.rounds|
      invariant old(control.IsSet()) ==> control.IsSet() && batch.rounds == [] && pending == Range(lo, hi)
      invariant !slot.cancellable ==> control.IsSet() == old(control.IsSet())
      decreases pending, idlePolls
    {
      control.Interfere(slot.cancellable);
      if control.IsSet() {
        var reason := control.Reason();
        var dropped := CancelPending(slot, pending, reason, false, control);
        batch := batch.(cause := Cancelled(reason));
        UnderWayStops(slot, batch, pending, successes, failures, dropped, quiet);
        return successes, failures + dropped, true, None, batch;
      }
      if slot.timed && slot.late(lo, check) {
        var dropped := CancelPending(slot, pending, DEADLINE, true, control);
        batch := batch.(cause := DeadlinePassed);
        UnderWayStops(slot, batch, pending, successes, failures, dropped, quiet);
        return successes, failures + dropped, true, None, batch;
      }
      assert pending <= pending;
      var done: set<nat> :| done <= pending && (idlePolls == 0 ==> done != {});
      if done == {} {
        UnderWayIdles(slot, lo, hi, pending, successes, failures, quiet, batch.rounds);
        idlePolls := idlePolls - 1;
      } else {
        var ok, failed, thrown := TakeDone(slot, done, control);
        if thrown.Some? {
          return successes, failures, false, thrown, batch;
        }
        if failed != [] && slot.strict && slot.cancelOnError && pending - done != {} {
          var dropped := CancelPending(slot, pending - done, STRICT_ABORT, false, control);
          UnderWayAborts(slot, lo, hi, pending, successes, failures, done, ok, failed, dropped, quiet, batch.rounds);
          batch := Batch(lo, hi, batch.rounds + [done], StrictFailure);
          return successes + ok, failures + failed + dropped, true, None, batch;
        }
        UnderWayContinues(slot, lo, hi, pending, successes, failures, done, ok, failed, quiet, batch.rounds);
        successes, failures, pending := successes + ok, failures + failed, pending - done;
        idlePolls := *;
      }
      batch, check := batch.(rounds := batch.rounds + [done]), check + 1;
    }
    UnderWayEnds(slot, lo, hi, successes, failures, quiet, batch.rounds);
  }

  method CollectBatch<V>(slot: Slot<V>, lo: nat, hi: nat, pooled: bool, control: RunControl)
      returns (successes: map<nat, V>, failures: seq<Failure>, abort: bool, escaped: Option<Raised>,
               ghost batch: Batch)
    requires lo < hi <= |slot.operators| && control.Linked()
    modifies control.lineage
    ensures batch.lo == lo && batch.hi == hi && (abort <==> !batch.cause.Completed?)
    ensures if escaped.Some? then Escapes(slot, escaped.value) && !abort
            else Over(slot, batch, successes, failures, !slot.timed && !slot.cancellable && !old(control.IsSet()))
    ensures batch.cause.Cancelled? ==> slot.cancellable || old(control.IsSet())
    ensures old(control.IsSet()) ==> batch.rounds == [] && batch.cause.Cancelled?
    ensures abort ==> control.event
    ensures !abort && !slot.cancellable ==> control.IsSet() == old(control.IsSet())
  {
    if pooled {
      successes, failures, abort, escaped, batch := CollectPoolBatch(slot, lo, hi, control);
    } else {
      successes, failures, abort, escaped, batch := CollectFutureBatch(slot, lo, hi, control);
    }
  }

  // ---- The whole slot --------------------------------------------------------------------

  /** At most one worker per branch, at most the granted threads, and at least one. */
  function WorkerLimit(branchCount: nat, threads: Option<int>): (n: nat)
    ensures 1 <= n && (branchCount > 0 ==> n <= branchCount)
    ensures threads.Some? && threads.value >= 1 ==> n <= threads.value
    ensures branchCount > 0 && (threads.None? || threads.value >= branchCount) ==> n == branchCount
    ensures threads.Some? && 1 <= threads.value <= branchCount ==> n == threads.value
  {
    var workers := if branchCount < 1 then 1 else branchCount;
    var granted := if threads.None? then workers else if threads.value < 1 then 1 else threads.value;
    if granted < workers then granted else workers
  }

  function InOrder<V>(successes: map<nat, V>, n: nat): (results: seq<V>)
  {
    if n == 0 then []
    else InOrder(successes, n - 1) + if n - 1 in successes then [successes[n - 1]] else []
  }

  function SuccessesBelow<V>(successes: map<nat, V>, n: nat): set<nat> {
    set i: nat | i in successes && i < n
  }

  /** The results of the branches that succeeded, and no others, in branch order. */
  lemma {:induction false} InOrderLists<V>(successes: map<nat, V>, n: nat)
    ensures |InOrder(successes, n)| == |SuccessesBelow(successes, n)|
    ensures forall i: nat | i < n && i in successes ::
              |InOrder(successes, i)| < |InOrder(successes, n)|
              && InOrder(successes, n)[|InOrder(successes, i)|] == successes[i]
  {
    if n > 0 {
      InOrderLists(successes, n - 1);
      assert SuccessesBelow(successes, n) ==
             SuccessesBelow(successes, n - 1) + if n - 1 in successes then {n - 1} else {};
    }
  }

  function InsertByIndex(f: Failure, sorted: seq<Failure>): seq<Failure> {
    if sorted == [] || f.index < sorted[0].index then [f] + sorted
    else [sorted[0]] + InsertByIndex(f, sorted[1..])
  }

  function SortByIndex(failures: seq<Failure>): seq<Failure> {
    if failures == [] then [] else InsertByIndex(failures[|failures| - 1], SortByIndex(failures[..|failures| - 1]))
  }

  predicate Ascending(failures: seq<Failure>) {
    forall a, b | 0 <= a < b < |failures| :: failures[a].index < failures[b].index
  }

  lemma InIndices(f: Failure, failures: seq<Failure>)
    requires f in failures
    ensures f.index in Indices(failures)
  {
    var k :| 0 <= k < |failures| && failures[k] == f;
    assert failures[k].index in Indices(failures);
  }

  lemma {:induction false} InsertKeepsOrder(f: Failure, sorted: seq<Failure>)
    requires Ascending(sorted) && forall x <- sorted :: x.index != f.index
    ensures Ascending(InsertByIndex(f, sorted)) && |InsertByIndex(f, sorted)| == |sorted| + 1
    ensures forall x :: x in InsertByIndex(f, sorted) <==> x in sorted || x == f
  {
    if sorted != [] && sorted[0].index <= f.index {
      var rest := InsertByIndex(f, sorted[1..]);
      InsertKeepsOrder(f, sorted[1..]);
      forall k | 0 <= k < |rest| ensures sorted[0].index < rest[k].index {
        assert rest[k] in rest;
      }
    }
  }

  lemma SameMembers(a: seq<Failure>, b: seq<Failure>)
    requires forall x :: x in a <==> x in b
    ensures Indices(a) == Indices(b)
  {
    forall k | 0 <= k < |a| ensures a[k].index in Indices(b) {
      InIndices(a[k], b);
    }
    forall k | 0 <= k < |b| ensures b[k].index in Indices(a) {
      InIndices(b[k], a);
    }
  }

  lemma {:induction false} SortsByIndex(failures: seq<Failure>)
    requires Distinct(failures)
    ensures Ascending(SortByIndex(failures)) && |SortByIndex(failures)| == |failures|
    ensures forall x :: x in SortByIndex(failures) <==> x in failures
    ensures Indices(SortByIndex(failures)) == Indices(failures)
  {
    if failures != [] {
      var init, last := failures[..|failures| - 1], failures[|failures| - 1];
      SortsByIndex(init);
      assert failures == init + [last];
      assert forall x <- init :: x.index != last.index;
      InsertKeepsOrder(last, SortByIndex(init));
    }
    SameMembers(SortByIndex(failures), failures);
  }

  lemma {:induction false} CountsIndices(failures: seq<Failure>)
    requires Distinct(failures)
    ensures |Indices(failures)| == |failures|
  {
    if failures != [] {
      var init, last := failures[..|failures| - 1], failures[|failures| - 1];
      CountsIndices(init);
      IndicesSnoc(init, last);
      assert failures == init + [last];
      assert last.index !in Indices(init);
    }
  }

  /** The audit of one slot. */
  datatype Report<+V> = Report(
    branchCount: nat, completedCount: nat, failureCount: nat, successes: map<nat, V>, failures: seq<Failure>,
    timedOut: bool, cancelled: bool, stillRunning: bool)

  datatype Finish<+V> =
    | Returned(results: seq<V>)
    | ParallelError(failures: seq<Failure>, partialResults: seq<V>)
    | Escaped(raised: Raised)

  function Unsubmitted<V>(slot: Slot<V>, i: nat, timedOut: bool): Failure
    requires i < |slot.operators|
  {
    Failure(i, slot.operators[i].name,
            if timedOut then "TimeoutError" else "CancelledError",
            if timedOut then "parallel slot deadline exceeded before branch submission"
            else "cancelled before branch submission",
            timedOut, true, false)
  }

  /** A branch that was never submitted is cancelled and not running, timed out if the slot was stopped so. */
  lemma UnsubmittedTells<V>(slot: Slot<V>, i: nat, timedOut: bool)
    requires i < |slot.operators|
    ensures var f := Unsubmitted(slot, i, timedOut);
            && f.index == i && f.operator == slot.operators[i].name && f.cancelled && !f.stillRunning
            && (f.timedOut <==> timedOut)
            && (f.errorType == "TimeoutError" <==> timedOut) && (f.errorType == "CancelledError" <==> !timedOut)
            && (f.message == "cancelled before branch submission" <==> !timedOut)
            && (f.message == "parallel slot deadline exceeded before branch submission" <==> timedOut)
  {
    assert |"TimeoutError"| == 12 && |"CancelledError"| == 14;
    assert |"cancelled before branch submission"| == 34;
    assert |"parallel slot deadline exceeded before branch submission"| == 56;
  }

  ghost predicate AllOk<V>(slot: Slot<V>) {
    forall i | 0 <= i < |slot.operators| :: Outcome(slot, i).Ok?
  }

  /**
   The conservation law of one slot.  The branches from `submitted` on were never started and are
   marked cancelled, by the deadline exactly when a started branch was; each other branch returned its
   own result or has one explained failure.
   */
  ghost predicate Conserved<V>(slot: Slot<V>, submitted: nat, successes: map<nat, V>, failures: seq<Failure>) {
    && Tally(Range(0, |slot.operators|), successes, failures)
    && Sound(slot, successes)
    && submitted <= |slot.operators|
    && (forall i <- successes :: i < submitted)
    && (forall f <- failures :: f.index < submitted ==> Explained(slot, f))
    && (forall f <- failures :: submitted <= f.index < |slot.operators| ==>
          f == Unsubmitted(slot, f.index, exists g <- failures :: g.index < submitted && g.timedOut))
  }

  /** What the first branches yielded, in branch order. */
  function Yields<V>(slot: Slot<V>, n: nat): (results: seq<V>)
    requires n <= |slot.operators| && forall i | 0 <= i < n :: Outcome(slot, i).Ok?
    ensures |results| == n && forall i | 0 <= i < n :: Ok(results[i]) == Outcome(slot, i)
  {
    if n == 0 then [] else Yields(slot, n - 1) + [Outcome(slot, n - 1).value]
  }

  /** Each operator called in turn on its own copy of the input. */
  function SequentialMap<V>(slot: Slot<V>, n: nat): (results: seq<V>)
    requires n <= |slot.operators| && forall i | 0 <= i < n :: Own(slot, i).Ok?
    ensures |results| == n && forall i | 0 <= i < n :: Ok(results[i]) == Own(slot, i)
  {
    if n == 0 then [] else SequentialMap(slot, n - 1) + [Own(slot, n - 1).value]
  }

  /** The run returned the sequential map of its operators. */
  ghost predicate ReturnsSequentialMap<V>(slot: Slot<V>, finish: Finish<V>) {
    (forall i | 0 <= i < |slot.operators| :: Own(slot, i).Ok?)
    && finish == Returned(SequentialMap(slot, |slot.operators|))
  }

  lemma AloneYieldsSequentialMap<V>(slot: Slot<V>)
    requires AllOk(slot) && RunsAlone(slot)
    ensures ReturnsSequentialMap(slot, Returned(Yields(slot, |slot.operators|)))
  {
    forall i | 0 <= i < |slot.operators| ensures Own(slot, i).Ok? && Outcome(slot, i) == Own(slot, i) {
      assert Outcome(slot, i).Ok? && slot.observed(i) == Own(slot, i);
    }
  }

  lemma {:induction false} SuccessesInOrder<V>(slot: Slot<V>, successes: map<nat, V>, n: nat)
    requires n <= |slot.operators| && Sound(slot, successes) && forall i: nat | i < n :: i in successes
    ensures (forall i | 0 <= i < n :: Outcome(slot, i).Ok?) && InOrder(successes, n) == Yields(slot, n)
  {
    if n > 0 {
      SuccessesInOrder(slot, successes, n - 1);
      assert n - 1 in successes;
    }
  }

  /** The batches collected so far, the last of which may have been aborted. */
  ghost predicate Stopped<V>(slot: Slot<V>, submitted: nat, successes: map<nat, V>, failures: seq<Failure>,
                             abort: bool, limit: nat, quiet: bool)
  {
    && submitted <= |slot.operators| && Tally(Range(0, submitted), successes, failures) && Sound(slot, successes)
    && AllExplained(slot, failures)
    && (!abort ==> AllFinished(failures))
    && (quiet && !abort ==> AllOwned(slot, failures))
    && (quiet && abort ==>
          && slot.strict && slot.cancelOnError && limit > 1
          && exists k | 0 <= k < |failures| :: Owned(slot, failures[k]))
  }

  lemma BatchJoins<V>(slot: Slot<V>, lo: nat, hi: nat, limit: nat, successes: map<nat, V>, failures: seq<Failure>,
                      ok: map<nat, V>, failed: seq<Failure>, abort: bool, quiet: bool)
    requires Stopped(slot, lo, successes, failures, false, limit, quiet)
    requires lo <= hi <= |slot.operators| && hi - lo <= limit
    requires Collected(slot, lo, hi, ok, failed, abort, quiet)
    ensures Stopped(slot, hi, successes + ok, failures + failed, abort, limit, quiet)
  {
    TallyJoins(Range(0, lo), successes, failures, Range(lo, hi), ok, failed);
    assert Range(0, lo) + Range(lo, hi) == Range(0, hi);
    if quiet && abort {
      var k :| 0 <= k < |failed| && Owned(slot, failed[k]);
      assert (failures + failed)[|failures| + k] == failed[k];
    }
  }

  /** `all` extends `failures` by reports of branches from `submitted` on. */
  ghost predicate Extends<V>(slot: Slot<V>, submitted: nat, failures: seq<Failure>, all: seq<Failure>, timedOut: bool) {
    && failures <= all
    && forall k | |failures| <= k < |all| ::
         submitted <= all[k].index < |slot.operators| && all[k] == Unsubmitted(slot, all[k].index, timedOut)
  }

  lemma MarksNext<V>(slot: Slot<V>, submitted: nat, i: nat, successes: map<nat, V>, failures: seq<Failure>,
                     all: seq<Failure>, timedOut: bool)
    requires submitted <= i < |slot.operators| && Extends(slot, submitted, failures, all, timedOut)
    requires Tally(Range(0, i), successes, all)
    ensures Extends(slot, submitted, failures, all + [Unsubmitted(slot, i, timedOut)], timedOut)
    ensures Tally(Range(0, i + 1), successes, all + [Unsubmitted(slot, i, timedOut)])
  {
    TallyAddsFailure(Range(0, i), successes, all, Unsubmitted(slot, i, timedOut));
    assert Range(0, i) + {i} == Range(0, i + 1);
  }

  lemma CountedIff<V>(successes: map<nat, V>, failures: seq<Failure>, submitted: nat, i: nat)
    requires Tally(Range(0, submitted), successes, failures)
    ensures i < submitted <==> i in successes || i in Indices(failures)
  {
    assert i in Range(0, submitted) <==> i in successes.Keys + Indices(failures);
  }

  /** After an abort, every branch that was neither completed nor failed is reported in turn. */
  method MarkUnsubmitted<V>(slot: Slot<V>, ghost submitted: nat, successes: map<nat, V>, failures: seq<Failure>)
      returns (all: seq<Failure>, timedOut: bool)
    requires submitted <= |slot.operators| && Tally(Range(0, submitted), successes, failures)
    ensures timedOut <==> exists g <- failures :: g.timedOut
    ensures Extends(slot, submitted, failures, all, timedOut) && Tally(Range(0, |slot.operators|), successes, all)
  {
    var failed := Indices(failures);
    timedOut := exists g <- failures :: g.timedOut;
    all := failures;
    ghost var counted := submitted;
    for i := 0 to |slot.operators|
      invariant counted == if i < submitted then submitted else i
      invariant Extends(slot, submitted, failures, all, timedOut) && Tally(Range(0, counted), successes, all)
    {
      CountedIff(successes, failures, submitted, i);
      if i !in successes && i !in failed {
        MarksNext(slot, submitted, i, successes, failures, all, timedOut);
        all := all + [Unsubmitted(slot, i, timedOut)];
        counted := i + 1;
      }
    }
  }

  // ---- Running a slot --------------------------------------------------------------------

  lemma StoppedIsConserved<V>(slot: Slot<V>, submitted: nat, limit: nat, successes: map<nat, V>, failures: seq<Failure>,
                              all: seq<Failure>, timedOut: bool, abort: bool, quiet: bool)
    requires Stopped(slot, submitted, successes, failures, abort, limit, quiet)
    requires Tally(Range(0, |slot.operators|), successes, all) && Extends(slot, submitted, failures, all, timedOut)
    requires timedOut <==> exists g <- failures :: g.timedOut
    ensures Conserved(slot, submitted, successes, all)
  {
    forall i <- successes ensures i < submitted {
      assert i in Range(0, submitted);
    }
    forall k | 0 <= k < |failures| ensures all[k] == failures[k] && all[k].index < submitted {
      assert failures[k].index in Indices(failures);
      assert failures[k].index in Range(0, submitted);
    }
    if timedOut {
      var g :| g in failures && g.timedOut;
      var k :| 0 <= k < |failures| && failures[k] == g;
      assert all[k] in all && all[k].index < submitted && all[k].timedOut;
    }
    forall f <- all ensures f.index < submitted ==> Explained(slot, f)
      ensures submitted <= f.index ==>
                f == Unsubmitted(slot, f.index, exists g <- all :: g.index < submitted && g.timedOut)
    {
      var k :| 0 <= k < |all| && all[k] == f;
    }
  }

  /** Without interference failures mean exactly that some branch fails on its own. */
  lemma QuietFailures<V>(slot: Slot<V>, submitted: nat, limit: nat, successes: map<nat, V>, failures: seq<Failure>,
                         all: seq<Failure>, abort: bool)
    requires Stopped(slot, submitted, successes, failures, abort, limit, true)
    requires Tally(Range(0, |slot.operators|), successes, all) && failures <= all
    requires !abort ==> all == failures
    ensures all == [] <==> AllOk(slot)
    ensures !slot.strict || !slot.cancelOnError || limit == 1 ==> !abort && AllOwned(slot, all)
  {
    if all == [] {
      forall i: nat | i < |slot.operators| ensures Outcome(slot, i).Ok? {
        assert i in Range(0, |slot.operators|);
        assert i in successes;
      }
    } else if abort {
      var k :| 0 <= k < |failures| && Owned(slot, failures[k]);
    } else {
      assert Owned(slot, all[0]);
    }
  }

  /** The report keeps the tally when its failures are sorted. */
  lemma SortedReport<V>(slot: Slot<V>, submitted: nat, successes: map<nat, V>, all: seq<Failure>)
    requires Conserved(slot, submitted, successes, all)
    ensures Conserved(slot, submitted, successes, SortByIndex(all))
    ensures Ascending(SortByIndex(all)) && |SortByIndex(all)| == |all|
    ensures AllOwned(slot, all) ==> AllOwned(slot, SortByIndex(all))
    ensures |successes| + |all| == |slot.operators|
  {
    SortsByIndex(all);
    CountsIndices(all);
    RangeSize(0, |slot.operators|);
    assert |successes.Keys| + |Indices(all)| == |successes.Keys + Indices(all)|;
    if AllOwned(slot, all) {
      forall k | 0 <= k < |all| ensures Owned(slot, SortByIndex(all)[k]) {
        assert SortByIndex(all)[k] in all;
      }
    }
  }

  lemma NoFailureMapsAll<V>(slot: Slot<V>, successes: map<nat, V>)
    requires Tally(Range(0, |slot.operators|), successes, []) && Sound(slot, successes)
    ensures AllOk(slot) && InOrder(successes, |slot.operators|) == Yields(slot, |slot.operators|)
  {
    forall i: nat | i < |slot.operators| ensures i in successes {
      assert i in Range(0, |slot.operators|);
    }
    SuccessesInOrder(slot, successes, |slot.operators|);
  }

  predicate IsMultiple(n: nat, limit: nat)
    requires limit > 0
  {
    n == 0 || (n >= limit && IsMultiple(n - limit, limit))
  }

  /** Submission stops at the end of a batch of `limit` branches, or after the last branch. */
  predicate IsBatchEnd(submitted: nat, branches: nat, limit: nat)
    requires limit > 0
  {
    submitted == branches || IsMultiple(submitted, limit)
  }

  /** The failures of the branches `lo` to `hi`. */
  function Part(failures: seq<Failure>, lo: nat, hi: nat): set<Failure> {
    set f | f in failures && lo <= f.index < hi
  }

  /** Batch `k` has `limit` branches or the rest, and starts where the one before it ended. */
  ghost predicate InSequence(history: seq<Batch>, k: nat, n: nat, limit: nat)
    requires k < |history|
  {
    && history[k].lo == (if k == 0 then 0 else history[k - 1].hi) && history[k].lo < n
    && history[k].hi == (if history[k].lo + limit < n then history[k].lo + limit else n)
  }

  function EndOf(history: seq<Batch>): nat {
    if history == [] then 0 else history[|history| - 1].hi
  }

  /** Batches in order, of which only the last may have been aborted. */
  ghost predicate Follow(history: seq<Batch>, n: nat, limit: nat) {
    && (forall k: nat | k < |history| :: InSequence(history, k, n, limit))
    && (forall k: nat | k + 1 < |history| :: history[k].cause.Completed?)
  }

  ghost predicate EndsAborted(history: seq<Batch>) {
    history != [] && !history[|history| - 1].cause.Completed?
  }

  /** Every batch ran its course with the reported failures of its branches. */
  ghost predicate RanAll<V>(slot: Slot<V>, history: seq<Batch>, failures: seq<Failure>, quiet: bool) {
    forall k | 0 <= k < |history| ::
      RanWell(slot, history[k], Part(failures, history[k].lo, history[k].hi), quiet)
  }

  ghost predicate RanWell<V>(slot: Slot<V>, b: Batch, failures: set<Failure>, quiet: bool) {
    Ran(slot, b, failures) && TakenAreFound(slot, b, failures, quiet)
  }

  /** A batch aborts strictly exactly when a round with a failure leaves siblings pending in a strict slot. */
  lemma StrictFailureIff<V>(slot: Slot<V>, b: Batch, failures: set<Failure>)
    requires Ran(slot, b, failures)
    ensures b.cause.StrictFailure? <==>
            slot.strict && slot.cancelOnError
            && exists k: nat :: k < |b.rounds| && FailsIn(b.rounds[k], failures) && LeavesPending(b, k)
  {
    if b.cause.StrictFailure? {
      assert FailsIn(b.rounds[|b.rounds| - 1], failures) && LeavesPending(b, |b.rounds| - 1);
    }
  }

  /** A check that finds the deadline passed is the last: an unfinished batch then drops what is pending. */
  lemma PassedDeadlineEndsBatch<V>(slot: Slot<V>, b: Batch, failures: set<Failure>, check: nat)
    requires Ran(slot, b, failures) && slot.timed && slot.late(b.lo, check)
    ensures |b.rounds| <= check
    ensures check == 0 && b.lo < b.hi ==>
              (b.cause.DeadlinePassed? || b.cause.Cancelled?) && RestIsDropped(slot, b, failures)
  {
    if check == 0 && b.lo < b.hi {
      assert |b.rounds| == 0;
      assert b.lo in Range(b.lo, b.hi);
    }
  }

  lemma BatchRanToo<V>(slot: Slot<V>, history: seq<Batch>, batch: Batch,
                         failures: seq<Failure>, failed: seq<Failure>, quiet: bool)
    requires RanAll(slot, history, failures, quiet) && RanWell(slot, batch, FailureSet(failed), quiet)
    requires forall k | 0 <= k < |history| :: history[k].hi <= batch.lo
    requires Indices(failures) <= Range(0, batch.lo) && Indices(failed) <= Range(batch.lo, batch.hi)
    ensures RanAll(slot, history + [batch], failures + failed, quiet)
  {
    forall f <- failed ensures batch.lo <= f.index < batch.hi {
      InIndices(f, failed);
      assert f.index in Range(batch.lo, batch.hi);
    }
    forall f <- failures ensures f.index < batch.lo {
      InIndices(f, failures);
      assert f.index in Range(0, batch.lo);
    }
    assert Part(failures + failed, batch.lo, batch.hi) == FailureSet(failed);
    forall k | 0 <= k < |history|
      ensures Part(failures + failed, history[k].lo, history[k].hi) == Part(failures, history[k].lo, history[k].hi)
    {
    }
  }

  /** Marking and sorting do not touch the reports of the submitted branches. */
  lemma ReportKeepsCourse<V>(slot: Slot<V>, history: seq<Batch>, failures: seq<Failure>, all: seq<Failure>,
                             submitted: nat, timedOut: bool, quiet: bool)
    requires RanAll(slot, history, failures, quiet) && Extends(slot, submitted, failures, all, timedOut)
    requires forall k | 0 <= k < |history| :: history[k].hi <= submitted
    requires Distinct(all)
    ensures RanAll(slot, history, SortByIndex(all), quiet)
  {
    SortsByIndex(all);
    forall k | 0 <= k < |history|
      ensures Part(SortByIndex(all), history[k].lo, history[k].hi) == Part(failures, history[k].lo, history[k].hi)
    {
      forall f | f in all && f.index < history[k].hi ensures f in failures {
        var i :| 0 <= i < |all| && all[i] == f;
      }
      forall f <- failures ensures f in all {
        var i :| 0 <= i < |failures| && failures[i] == f;
        assert all[i] == f;
      }
    }
  }

  lemma FollowNext(history: seq<Batch>, batch: Batch, n: nat, limit: nat)
    requires limit > 0 && Follow(history, n, limit) && !EndsAborted(history) && EndOf(history) < n
    requires batch.lo == EndOf(history) && batch.hi == if batch.lo + limit < n then batch.lo + limit else n
    ensures Follow(history + [batch], n, limit)
    ensures EndsAborted(history + [batch]) <==> !batch.cause.Completed?
  {
    var after := history + [batch];
    forall k: nat | k < |after| ensures InSequence(after, k, n, limit) {
      if k < |history| {
        assert InSequence(history, k, n, limit);
      }
    }
    forall k: nat | k + 1 < |after| ensures after[k].cause.Completed? {
      if k + 1 < |history| {
        assert history[k].cause.Completed?;
      }
    }
  }

  lemma HistoryEnds(history: seq<Batch>, n: nat, limit: nat)
    requires Follow(history, n, limit)
    ensures forall k | 0 <= k < |history| :: history[k].hi <= EndOf(history)
  {
    forall k | 0 < k < |history| ensures history[k - 1].hi == history[k].lo <= history[k].hi {
      assert InSequence(history, k, n, limit);
    }
    forall k | 0 <= k < |history| ensures history[k].hi <= EndOf(history) {
      EndsRise(history, k, |history| - 1);
    }
  }

  lemma {:induction false} EndsRise(history: seq<Batch>, i: nat, j: nat)
    requires i <= j < |history|
    requires forall k | 0 < k < |history| :: history[k - 1].hi == history[k].lo <= history[k].hi
    ensures history[i].hi <= history[j].hi
  {
    if i < j {
      EndsRise(history, i, j - 1);
      assert history[j - 1].hi == history[j].lo;
    }
  }

  /** Only the first batch was submitted, and it was given up before anything was taken from it. */
  ghost predicate IsCancelledAtOnce(history: seq<Batch>) {
    |history| == 1 && history[0].rounds == [] && history[0].cause.Cancelled?
  }

  /** The batches submitted so far: what they account for, their order and their courses. */
  ghost predicate Submitted<V>(slot: Slot<V>, successes: map<nat, V>, failures: seq<Failure>, limit: nat, quiet: bool,
                               history: seq<Batch>)
    requires limit > 0
  {
    && Stopped(slot, EndOf(history), successes, failures, EndsAborted(history), limit, quiet)
    && IsBatchEnd(EndOf(history), |slot.operators|, limit)
    && Follow(history, |slot.operators|, limit) && RanAll(slot, history, failures, quiet)
  }

  lemma OneMoreBatch<V>(slot: Slot<V>, successes: map<nat, V>, failures: seq<Failure>, limit: nat, quiet: bool,
                        history: seq<Batch>, batch: Batch, ok: map<nat, V>, failed: seq<Failure>)
    requires limit > 0 && Submitted(slot, successes, failures, limit, quiet, history) && !EndsAborted(history)
    requires batch.lo == EndOf(history) < |slot.operators| && Over(slot, batch, ok, failed, quiet)
    requires batch.hi == if batch.lo + limit < |slot.operators| then batch.lo + limit else |slot.operators|
    ensures Submitted(slot, successes + ok, failures + failed, limit, quiet, history + [batch])
    ensures EndsAborted(history + [batch]) <==> !batch.cause.Completed?
    ensures EndOf(history + [batch]) == batch.hi
  {
    var n := |slot.operators|;
    BatchJoins(slot, batch.lo, batch.hi, limit, successes, failures, ok, failed, !batch.cause.Completed?, quiet);
    HistoryEnds(history, n, limit);
    FollowNext(history, batch, n, limit);
    BatchRanToo(slot, history, batch, failures, failed, quiet);
  }

  /** Submit and collect batch after batch until one is aborted, then close the run. */
  method SubmitBatches<V>(slot: Slot<V>, limit: nat, pooled: bool, control: RunControl)
      returns (successes: map<nat, V>, failures: seq<Failure>, abort: bool, escaped: Option<Raised>,
               ghost history: seq<Batch>)
    requires limit > 0 && control.Linked()
    modifies control.lineage
    ensures if escaped.Some? then Escapes(slot, escaped.value)
            else Submitted(slot, successes, failures, limit,
                           !slot.timed && !slot.cancellable && !old(control.IsSet()), history)
    ensures abort <==> EndsAborted(history)
    ensures escaped.None? ==> if abort then control.event else EndOf(history) == |slot.operators|
    ensures IsBatchEnd(EndOf(history), |slot.operators|, limit)
    ensures forall b <- history :: b.cause.Cancelled? ==> slot.cancellable || old(control.IsSet())
    ensures old(control.IsSet()) && slot.operators != [] ==> IsCancelledAtOnce(history)
    ensures !control.active
  {
    ghost var quiet := !slot.timed && !slot.cancellable && !control.IsSet();
    var n := |slot.operators|;
    var start := 0;
    successes, failures, abort, escaped, history := map[], [], false, None, [];
    while start < n && !abort
      invariant Submitted(slot, successes, failures, limit, quiet, history)
      invariant start == EndOf(history) && (abort <==> EndsAborted(history))
      invariant escaped.None? && (abort ==> control.event)
      invariant forall b <- history :: b.cause.Cancelled? ==> slot.cancellable || old(control.IsSet())
      invariant !slot.cancellable && !old(control.IsSet()) && !abort ==> !control.IsSet()
      invariant old(control.IsSet()) ==>
                  if start == 0 then history == [] && control.IsSet() else IsCancelledAtOnce(history)
      decreases n - start
    {
      var end := if start + limit < n then start + limit else n;
      var ok, failed, stop, thrown, batch := CollectBatch(slot, start, end, pooled, control);
      if thrown.Some? {
        control.Close();
        return successes, failures, false, thrown, history + [batch];
      }
      OneMoreBatch(slot, successes, failures, limit, quiet, history, batch, ok, failed);
      abort, history := stop, history + [batch];
      successes, failures, start := successes + ok, failures + failed, end;
    }
    control.Close();
  }

  function Audit<V>(n: nat, successes: map<nat, V>, failures: seq<Failure>): (report: Report<V>) {
    Report(n, |successes|, |failures|, successes, failures, exists f <- failures :: f.timedOut,
           exists f <- failures :: f.cancelled, exists f <- failures :: f.stillRunning)
  }

  /** The flags of the audit tell whether some failure has them. */
  lemma AuditTells<V>(n: nat, successes: map<nat, V>, failures: seq<Failure>, f: Failure)
    requires f in failures
    ensures var report := Audit(n, successes, failures);
            && report.branchCount == n && report.completedCount == |successes| && report.failureCount == |failures|
            && report.successes == successes && report.failures == failures
            && (f.timedOut ==> report.timedOut) && (f.cancelled ==> report.cancelled)
            && (f.stillRunning ==> report.stillRunning)
            && (AllFinished(failures) ==> !report.timedOut && !report.stillRunning)
  {
    if AllFinished(failures) {
      forall g <- failures ensures !g.timedOut && !g.stillRunning {
        var k :| 0 <= k < |failures| && failures[k] == g;
      }
    }
  }

  /** What a slot that nothing escaped from returns and reports. */
  ghost predicate Accounted<V>(slot: Slot<V>, submitted: nat, finish: Finish<V>, report: Report<V>) {
    && Conserved(slot, submitted, report.successes, report.failures) && Ascending(report.failures)
    && report == Audit(|slot.operators|, report.successes, report.failures)
    && report.completedCount + report.failureCount == |slot.operators|
    && finish == (var results := InOrder(report.successes, |slot.operators|);
                  if slot.strict && report.failures != [] then ParallelError(report.failures, results)
                  else Returned(results))
    && (report.failures == [] ==> AllOk(slot) && finish == Returned(Yields(slot, |slot.operators|)))
    && (report.failures == [] && RunsAlone(slot) ==> ReturnsSequentialMap(slot, finish))
  }

  /**
   Run all branches of a slot.  Whatever the scheduler, the clock and other threads do, every branch
   is accounted for once, unless a branch raises what no handler catches: then that is raised, without a
   report.  A run without failures returns what the branches yielded, in branch order, and that is the
   sequential map of the operators when no branch notices the others.  Without deadline and
   cancellation, failures occur only if some branch fails by itself.
   */
  method RunParallel<V>(slot: Slot<V>, threads: Option<int>, pooled: bool, parent: RunControl?)
      returns (finish: Finish<V>, report: Option<Report<V>>, control: RunControl, ghost submitted: nat,
               ghost history: seq<Batch>)
    requires parent != null ==> parent.Linked()
    modifies if parent == null then {} else parent.lineage
    ensures if finish.Escaped? then report.None? && Escapes(slot, finish.raised)
            else report.Some? && Accounted(slot, submitted, finish, report.value)
    ensures report.Some? ==>
              && Follow(history, |slot.operators|, WorkerLimit(|slot.operators|, threads))
              && submitted == EndOf(history) && (submitted < |slot.operators| ==> EndsAborted(history))
              && RanAll(slot, history, report.value.failures,
                        !slot.timed && !slot.cancellable && (parent == null || !old(parent.IsSet())))
    ensures forall b <- history :: b.cause.Cancelled? ==> slot.cancellable || (parent != null && old(parent.IsSet()))
    ensures parent != null && old(parent.IsSet()) && slot.operators != [] ==> IsCancelledAtOnce(history)
    ensures var quiet := !slot.timed && !slot.cancellable && (parent == null || !old(parent.IsSet()));
            quiet && report.Some? ==>
              && (report.value.failures == [] <==> AllOk(slot))
              && (!slot.strict || !slot.cancelOnError || WorkerLimit(|slot.operators|, threads) == 1 ==>
                    submitted == |slot.operators| && AllOwned(slot, report.value.failures))
    ensures IsBatchEnd(submitted, |slot.operators|, WorkerLimit(|slot.operators|, threads))
    ensures fresh(control) && control.parent == parent && !control.active
    ensures report.Some? && submitted < |slot.operators| ==> control.event
  {
    var n := |slot.operators|;
    var limit := WorkerLimit(n, threads);
    control := new RunControl(parent);
    assert control.lineage == {control} + if parent == null then {} else parent.lineage;
    ghost var quiet := !slot.timed && !slot.cancellable && !control.IsSet();
    assert control.IsSet() == (parent != null && parent.IsSet());
    var successes, failures, abort, escaped, batches := SubmitBatches(slot, limit, pooled, control);
    history, submitted := batches, EndOf(batches);
    if escaped.Some? {
      return Escaped(escaped.value), None, control, submitted, history;
    }
    var all := failures;
    ghost var timedOut := exists g <- failures :: g.timedOut;
    if abort {
      var marked, _ := MarkUnsubmitted(slot, submitted, successes, failures);
      all := marked;
    }
    var audit;
    finish, audit := Reported(slot, limit, submitted, successes, failures, all, timedOut, abort, quiet);
    HistoryEnds(history, n, limit);
    ReportKeepsCourse(slot, history, failures, all, submitted, timedOut, quiet);
    report := Some(audit);
  }

  method Reported<V>(slot: Slot<V>, ghost limit: nat, ghost submitted: nat, successes: map<nat, V>,
                     ghost failures: seq<Failure>, all: seq<Failure>, ghost timedOut: bool, ghost abort: bool,
                     ghost quiet: bool)
      returns (finish: Finish<V>, report: Report<V>)
    requires Stopped(slot, submitted, successes, failures, abort, limit, quiet)
    requires Tally(Range(0, |slot.operators|), successes, all) && Extends(slot, submitted, failures, all, timedOut)
    requires timedOut <==> exists g <- failures :: g.timedOut
    requires !abort ==> all == failures
    ensures !finish.Escaped? && Accounted(slot, submitted, finish, report) && report.failures == SortByIndex(all)
    ensures quiet ==> (report.failures == [] <==> AllOk(slot))
    ensures quiet && (!slot.strict || !slot.cancelOnError || limit == 1) ==> !abort && AllOwned(slot, report.failures)
  {
    StoppedIsConserved(slot, submitted, limit, successes, failures, all, timedOut, abort, quiet);
    if quiet {
      QuietFailures(slot, submitted, limit, successes, failures, all, abort);
    }
    SortedReport(slot, submitted, successes, all);
    var sorted := SortByIndex(all);
    report := Audit(|slot.operators|, successes, sorted);
    var results := InOrder(successes, |slot.operators|);
    if sorted == [] {
      NoFailureMapsAll(slot, successes);
      if RunsAlone(slot) {
        AloneYieldsSequentialMap(slot);
      }
    }
    finish := if slot.strict && sorted != [] then ParallelError(sorted, results) else Returned(results);
  }
}
