/**
 The distributed journal: clients run the journal's updaters in the optimistic loop.  The loop is
 linearizable for any updater, so each statement about a whole run is proved on the log, replayed
 one call at a time on the locked journal.  Records are JSON texts, so answers are compared as texts.
 */
module RedisJournal {
  import opened Outcomes
  import opened OptimisticLoop
  import opened EvidenceJournal
  import opened JsonJournal

  type JournalState = State<Op, Record, JournalError>
  type JournalLog = seq<Entry<Op, Record, JournalError>>

  ghost predicate IsHistory(log: JournalLog) {
    Explained(JsonUpdater(), log) && forall i | 0 <= i < |log| :: ArgumentsAreTyped(log[i].op)
  }

  function RecordsAt(log: JournalLog, n: nat): Records
    requires n <= |log|
  {
    Replay(JsonUpdater(), log[..n])
  }

  lemma {:induction false} ReplayKeepsInvariant(log: JournalLog, n: nat)
    requires IsHistory(log) && n <= |log|
    ensures TextInvariant(RecordsAt(log, n))
  {
    if n > 0 {
      ReplayKeepsInvariant(log, n - 1);
      assert log[..n][..n - 1] == log[..n - 1];
      LockedKeepsTexts(RecordsAt(log, n - 1), log[n - 1].op, log[n - 1].now);
    }
  }

  ghost predicate AllEvolve(before: Records, after: Records) {
    forall k <- before :: k in after && Evolves(before[k], after[k])
  }

  lemma OneCallAdvances(log: JournalLog, n: nat)
    requires IsHistory(log) && n < |log|
    ensures AllEvolve(RecordsAt(log, n), RecordsAt(log, n + 1))
    ensures log[n].outcome.Ok? ==>
              && EventOf(log[n].op) in RecordsAt(log, n + 1)
              && RecordsAt(log, n + 1)[EventOf(log[n].op)] == log[n].outcome.value
  {
    ReplayKeepsInvariant(log, n);
    assert log[..n + 1][..n] == log[..n];
    LockedKeepsTexts(RecordsAt(log, n), log[n].op, log[n].now);
  }

  lemma {:induction false} EvolveAlong(trail: seq<Records>, m: nat, n: nat)
    requires m <= n < |trail|
    requires forall i | 0 <= i < |trail| - 1 :: AllEvolve(trail[i], trail[i + 1])
    ensures AllEvolve(trail[m], trail[n])
  {
    if m < n {
      EvolveAlong(trail, m, n - 1);
      assert AllEvolve(trail[n - 1], trail[n - 1 + 1]);
      forall k <- trail[m] ensures k in trail[n] && Evolves(trail[m][k], trail[n][k]) {
        EvolvesIsTransitive(trail[m][k], trail[n - 1][k], trail[n][k]);
      }
    }
  }

  /** Between two points of a history every record moves forward only, and none disappears. */
  lemma RecordsEvolve(log: JournalLog, m: nat, n: nat)
    requires IsHistory(log) && m <= n <= |log|
    ensures AllEvolve(RecordsAt(log, m), RecordsAt(log, n))
  {
    var trail := seq(|log| + 1, i requires 0 <= i <= |log| => RecordsAt(log, i));
    forall i | 0 <= i < |trail| - 1 ensures AllEvolve(trail[i], trail[i + 1]) {
      OneCallAdvances(log, i);
    }
    EvolveAlong(trail, m, n);
  }

  lemma ReachableHistory(limit: nat, s: JournalState, steps: seq<Step<Op>>)
    requires Initial(s)
    ensures var t := Run(JsonUpdater(), limit, s, steps);
            && Linearizable(JsonUpdater(), limit, t)
            && IsHistory(t.log)
            && t.records == RecordsAt(t.log, |t.log|)
  {
    InitialIsSound(JsonUpdater(), limit, s);
    EveryRunIsLinearizable(JsonUpdater(), limit, s, steps);
    var t := Run(JsonUpdater(), limit, s, steps);
    assert t.log[..|t.log|] == t.log;
  }

  /** Every stored record of every interleaved run obeys the stage/revision law. */
  lemma EveryRunKeepsStages(limit: nat, s: JournalState, steps: seq<Step<Op>>)
    requires Initial(s)
    ensures TextInvariant(Run(JsonUpdater(), limit, s, steps).records)
  {
    ReachableHistory(limit, s, steps);
    var t := Run(JsonUpdater(), limit, s, steps);
    ReplayKeepsInvariant(t.log, |t.log|);
  }

  /** Life-long constants and one-way stages, between any two points of an interleaved run. */
  lemma EveryRunOnlyAdvances(limit: nat, s: JournalState, first: seq<Step<Op>>, second: seq<Step<Op>>, key: string)
    requires Initial(s)
    requires key in Run(JsonUpdater(), limit, s, first).records
    ensures var before := Run(JsonUpdater(), limit, s, first).records;
            var after := Run(JsonUpdater(), limit, s, first + second).records;
            key in after && Evolves(before[key], after[key])
  {
    RunAppend(limit, s, first, second);
    ReachableHistory(limit, s, first);
    ReachableHistory(limit, s, first + second);
    var middle := Run(JsonUpdater(), limit, s, first);
    EveryRunIsLinearizable(JsonUpdater(), limit, middle, second);
    var log := Run(JsonUpdater(), limit, s, first + second).log;
    assert log[..|middle.log|] == middle.log;
    assert middle.log[..|middle.log|] == middle.log;
    RecordsEvolve(log, |middle.log|, |log|);
  }

  lemma {:induction false} RunAppend(limit: nat, s: JournalState, first: seq<Step<Op>>, second: seq<Step<Op>>)
    ensures Run(JsonUpdater(), limit, s, first + second)
            == Run(JsonUpdater(), limit, Run(JsonUpdater(), limit, s, first), second)
    decreases |first|
  {
    if first == [] {
      assert first + second == second;
    } else {
      assert (first + second)[1..] == first[1..] + second;
      RunAppend(limit, Do(JsonUpdater(), limit, s, first[0]), first[1..], second);
    }
  }

  /** No two versions of one event share a revision, so an expected revision names one version. */
  lemma RevisionsAreNeverReused(log: JournalLog, i: nat, j: nat)
    requires IsHistory(log) && i <= j < |log|
    requires EventOf(log[i].op) == EventOf(log[j].op)
    requires log[i].outcome.Ok? && log[j].outcome.Ok?
    ensures Evolves(log[i].outcome.value, log[j].outcome.value)
    ensures log[i].outcome.value.revision == log[j].outcome.value.revision <==> log[i].outcome == log[j].outcome
  {
    var key := EventOf(log[i].op);
    OneCallAdvances(log, i);
    OneCallAdvances(log, j);
    RecordsEvolve(log, i + 1, j + 1);
    assert Evolves(RecordsAt(log, i + 1)[key], RecordsAt(log, j + 1)[key]);
    RevisionIdentifiesVersion(log[i].outcome.value, log[j].outcome.value);
  }

  /** Agreement: all settle calls that succeed for one event return one and the same decided record. */
  lemma SettlesAgree(log: JournalLog, i: nat, j: nat)
    requires IsHistory(log) && i <= j < |log|
    requires log[i].op.Settle? && log[j].op.Settle? && log[i].op.eventId == log[j].op.eventId
    requires log[i].outcome.Ok? && log[j].outcome.Ok?
    ensures log[i].outcome == log[j].outcome
    ensures log[i].outcome.value.status.Decided?
    ensures log[i].outcome.value.verification == Some(ReloadReceipt(log[j].op.receipt))
  {
    SettledRecordIsDecided(log, i);
    SettledRecordIsDecided(log, j);
    RevisionsAreNeverReused(log, i, j);
  }

  lemma SettledRecordIsDecided(log: JournalLog, i: nat)
    requires IsHistory(log) && i < |log| && log[i].op.Settle? && log[i].outcome.Ok?
    ensures log[i].outcome.value.status.Decided?
    ensures log[i].outcome.value.verification == Some(ReloadReceipt(log[i].op.receipt))
  {
    ReplayKeepsInvariant(log, i);
    var before := RecordsAt(log, i);
    LockedKeepsTexts(before, log[i].op, log[i].now);
    assert log[i].outcome == Reloaded(Apply(log[i].op, Get(before, log[i].op.eventId), log[i].now));
    SettleLeavesReceipt(log[i].op, before[log[i].op.eventId], log[i].now);
  }
}
