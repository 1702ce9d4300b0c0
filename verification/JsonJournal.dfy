/**
 The journals that keep each record as JSON text: every call decodes the stored text, so the NaN
 values of a stored record are new objects in each call.  A stored record is written here as what a
 call decodes, with the NaN object `Loaded`, and an answer is given up to its NaN objects as well.
 */
module JsonJournal {
  import opened Outcomes
  import opened Wire
  import opened OptimisticLoop
  import opened EvidenceJournal

  /** Encode a record as text and decode it. */
  function Decode(r: Record): Result<Record, JournalError> {
    Construct(ReloadRecord(ThawRecord(r)))
  }

  ghost predicate IsText(r: Record) {
    ReloadRecord(r) == r
  }

  function UpdateText(op: Op, current: Option<Record>, now: real): Result<Record, JournalError> {
    var updated := Apply(op, current, now);
    if updated.Ok? then Decode(updated.value) else updated
  }

  /** What the caller passes exists before the call decodes anything. */
  predicate ArgumentsAreHeld(op: Op) {
    match op
    case Reserve(_, _, _, identity, metadata, _, _) => HeldFields(identity) && HeldFields(metadata)
    case MarkDurable(_, _) => true
    case Prepare(e, _, _) => HeldFields(e.payload) && HeldFields(e.identity) && HeldFields(e.metadata)
    case Settle(_, receipt, _) => IsHeld(receipt.verifiedAt) && HeldFields(receipt.metadata)
    case Abandon(_, _, metadata, _) => HeldFields(metadata)
  }

  function JsonUpdater(): Updater<Op, Record, JournalError> {
    Updater((op: Op, current: Option<Record>, now: real) => UpdateText(op, current, now),
            (op: Op) => EventOf(op), (op: Op) => ArgumentsAreTyped(op) && ArgumentsAreHeld(op))
  }

  // ---- Decoding changes NaN objects only -------------------------------------------------

  lemma ReloadedReceipt(r: Receipt)
    requires ReceiptIsValid(r)
    ensures FreezeReceipt(ReloadReceipt(ThawReceipt(r))) == ReloadReceipt(r)
    ensures ReloadReceipt(ReloadReceipt(r)) == ReloadReceipt(r) && ReceiptIsValid(ReloadReceipt(r))
  {
    FreezeOfReloadedFields(r.metadata);
    ReloadFieldsLaws(r.metadata);
  }

  /** The record that comes back from the text of a valid one is valid and differs in its NaN objects only. */
  lemma DecodeIsReload(r: Record)
    requires RecordIsValid(r)
    ensures Decode(r) == Ok(ReloadRecord(r)) && IsText(ReloadRecord(r)) && RecordIsValid(ReloadRecord(r))
  {
    FreezeOfReloadedFields(r.identity);
    FreezeOfReloadedFields(r.metadata);
    ReloadFieldsLaws(r.identity);
    ReloadFieldsLaws(r.metadata);
    if r.disposition.Some? {
      ReloadedEnvelope(r.disposition.value);
    }
    if r.verification.Some? {
      ReloadedReceipt(r.verification.value);
    }
  }

  lemma EvolvesToText(before: Record, after: Record)
    requires Evolves(before, after) && IsText(before)
    ensures Evolves(before, ReloadRecord(after))
  {}

  function Reloaded(result: Result<Record, JournalError>): Result<Record, JournalError> {
    if result.Ok? then Ok(ReloadRecord(result.value)) else result
  }

  ghost predicate TextInvariant(records: Records) {
    JournalInvariant(records) && forall k <- records :: IsText(records[k])
  }

  lemma UpdateIsReloaded(op: Op, current: Option<Record>, now: real)
    requires ArgumentsAreTyped(op) && (current.Some? ==> Staged(current.value))
    ensures UpdateText(op, current, now) == Reloaded(Apply(op, current, now))
    ensures Apply(op, current, now).Ok? ==>
              var next := Apply(op, current, now).value;
              && Staged(next) && Staged(ReloadRecord(next)) && IsText(ReloadRecord(next))
              && (current.Some? ==> Evolves(current.value, next))
  {
    if Apply(op, current, now).Ok? {
      if current.Some? {
        StepKeepsStage(op, current.value, now);
      } else {
        ReserveStages(op, now);
      }
      DecodeIsReload(Apply(op, current, now).value);
    }
  }

  /** One update keeps every text a staged record, moves each one forward only, and touches one key. */
  lemma LockedKeepsTexts(records: Records, op: Op, now: real)
    requires TextInvariant(records) && ArgumentsAreTyped(op)
    ensures var (after, result) := Locked(JsonUpdater(), records, op, now);
            && TextInvariant(after)
            && (forall k <- records :: k in after && Evolves(records[k], after[k]))
            && result == Reloaded(Apply(op, Get(records, EventOf(op)), now))
            && after == (if result.Ok? then records[EventOf(op) := result.value] else records)
  {
    var key := EventOf(op);
    var current := Get(records, key);
    UpdateIsReloaded(op, current, now);
    if Apply(op, current, now).Ok? {
      var next := Apply(op, current, now).value;
      if current.Some? {
        EvolvesToText(current.value, next);
      } else {
        ReserveStages(op, now);
      }
      StoringKeepsTexts(records, key, ReloadRecord(next));
    }
  }

  lemma StoringKeepsTexts(records: Records, key: string, r: Record)
    requires TextInvariant(records) && Staged(r) && IsText(r) && r.eventId == key
    requires key in records ==> Evolves(records[key], r)
    ensures TextInvariant(records[key := r])
    ensures forall k <- records :: Evolves(records[k], records[key := r][k])
  {}

  // ---- Retries ---------------------------------------------------------------------------

  predicate EnvelopeIsNanFree(e: Envelope) {
    NanFreeFields(e.payload) && NanFreeFields(e.identity) && NanFreeFields(e.metadata)
  }

  /** Whether the stored text equals what the same call offers again. */
  predicate IsRepeatable(op: Op) {
    match op
    case Reserve(_, _, _, identity, _, _, _) => NanFreeFields(identity)
    case Prepare(envelope, _, _) => IntentIsSequenceFree(envelope) && EnvelopeIsNanFree(envelope)
    case Settle(_, receipt, _) => !receipt.verifiedAt.NaN? && NanFreeFields(receipt.metadata)
    case _ => true
  }

  lemma ReloadedEnvelopeIsThawedIff(e: Envelope)
    requires EnvelopeIsValid(e) && HeldFields(e.payload) && HeldFields(e.identity) && HeldFields(e.metadata)
    ensures ReloadEnvelope(e) == ThawEnvelope(e) <==> IntentIsSequenceFree(e) && EnvelopeIsNanFree(e)
  {
    ReloadFieldsIsThawIff(e.payload);
    ReloadFieldsIsThawIff(e.identity);
    ReloadFieldsIsThawIff(e.metadata);
  }

  lemma ReloadedReceiptIsSameIff(r: Receipt)
    requires ReceiptIsValid(r) && IsHeld(r.verifiedAt) && HeldFields(r.metadata)
    ensures ThawReceipt(ReloadReceipt(r)) == ThawReceipt(r) <==>
            !r.verifiedAt.NaN? && NanFreeFields(r.metadata)
  {
    ReloadFieldsIsIdentityIff(r.metadata);
    ReloadFieldsLaws(r.metadata);
    FreezeAfterThawFields(r.metadata);
    FreezeAfterThawFields(ReloadFields(r.metadata));
  }

  lemma ReservedIdentity(op: Op, current: Option<Record>, now: real)
    requires op.Reserve? && ArgumentsAreHeld(op)
    requires current.Some? ==> Staged(current.value) && IsText(current.value)
    requires Apply(op, current, now).Ok?
    ensures var r := Apply(op, current, now).value;
            && r.identity == FreezeFields(op.identity)
            && (ReloadFields(r.identity) == r.identity <==> NanFreeFields(op.identity))
  {
    FreezeKeepsNanFields(op.identity);
    ReloadFieldsIsIdentityIff(FreezeFields(op.identity));
  }

  /** Repeating a reservation, given what was stored for the first one. */
  lemma RepeatedReserve(op: Op, current: Option<Record>, now: real, later: real)
    requires op.Reserve? && ArgumentsAreHeld(op)
    requires current.Some? ==> Staged(current.value) && IsText(current.value)
    requires Apply(op, current, now).Ok?
    ensures var r := ReloadRecord(Apply(op, current, now).value);
            Apply(op, Some(r), later) == Ok(r) <==> NanFreeFields(op.identity)
  {
    ReservedIdentity(op, current, now);
  }

  lemma RepeatedPrepare(op: Op, current: Record, now: real, later: real)
    requires op.Prepare? && ArgumentsAreTyped(op) && ArgumentsAreHeld(op) && Staged(current)
    requires Apply(op, Some(current), now).Ok?
    ensures var r := ReloadRecord(Apply(op, Some(current), now).value);
            Apply(Unconditional(op), Some(r), later) == Ok(r)
            <==> IntentIsSequenceFree(op.envelope) && EnvelopeIsNanFree(op.envelope)
  {
    PrepareLeavesIntent(op, current, now);
    ReloadedEnvelopeIsThawedIff(op.envelope);
  }

  lemma RepeatedSettle(op: Op, current: Record, now: real, later: real)
    requires op.Settle? && ArgumentsAreTyped(op) && ArgumentsAreHeld(op) && Staged(current)
    requires Apply(op, Some(current), now).Ok?
    ensures var r := ReloadRecord(Apply(op, Some(current), now).value);
            Apply(Unconditional(op), Some(r), later) == Ok(r)
            <==> !op.receipt.verifiedAt.NaN? && NanFreeFields(op.receipt.metadata)
  {
    SettleLeavesReceipt(op, current, now);
    ReloadedReceiptIsSameIff(op.receipt);
    ReloadedEnvelope(Apply(op, Some(current), now).value.disposition.value);
  }

  /**
   In a journal that keeps text, repeating a successful call returns the stored record and changes
   nothing exactly when the compared part of the call holds no NaN and, for `Prepare`, no sequence.
   Marking and abandoning can always be repeated.
   */
  lemma TextRetryIsIdempotentIff(op: Op, current: Option<Record>, now: real, later: real)
    requires ArgumentsAreTyped(op) && ArgumentsAreHeld(op)
    requires current.Some? ==> Staged(current.value) && IsText(current.value)
    requires UpdateText(op, current, now).Ok?
    ensures var r := UpdateText(op, current, now).value;
            UpdateText(Unconditional(op), Some(r), later) == Ok(r) <==> IsRepeatable(op)
  {
    UpdateIsReloaded(op, current, now);
    var r := ReloadRecord(Apply(op, current, now).value);
    UpdateIsReloaded(Unconditional(op), Some(r), later);
    match op
    case Reserve(_, _, _, _, _, _, _) => RepeatedReserve(op, current, now, later);
    case Prepare(_, _, _) => RepeatedPrepare(op, current.value, now, later);
    case Settle(_, _, _) => RepeatedSettle(op, current.value, now, later);
    case _ =>
      RepeatIsSettled(op, r, later);
  }

  lemma RepeatIsSettled(op: Op, r: Record, later: real)
    requires IsText(r) && (op.MarkDurable? || op.Abandon?)
    ensures op.MarkDurable? && !r.status.Preparing? ==> Apply(Unconditional(op), Some(r), later) == Ok(r)
    ensures op.Abandon? && op.reason != "" && r.status.Abandoned? ==>
              Apply(Unconditional(op), Some(r), later) == Ok(r)
  {}

  function NanIntent(): Envelope {
    Envelope("e", Rejected, "json", map["loss" := NaN(Held(1))], "k", "", map[], map[])
  }

  /** The event reserved and marked durable, as either journal holds it. */
  function PendingRecord(now: real): Record {
    Record("e", "r", "k", Pending, None, "", None, map[], map[], 2, 1.0, now)
  }

  lemma PendingIsReached(now: real)
    requires now >= 1.0
    ensures Staged(PendingRecord(now)) && IsText(PendingRecord(now))
    ensures var reserved := Apply(ReserveIt(), None, now);
            reserved.Ok? && Apply(MarkDurable("e", None), Some(reserved.value), now) == Ok(PendingRecord(now))
  {
    var reserved := Record("e", "r", "k", Preparing, None, "", None, map[], map[], 1, 1.0, 1.0);
    assert FreezeRecord(reserved) == reserved;
    assert reserved.metadata + map[] == map[];
    assert FreezeRecord(PendingRecord(now)) == PendingRecord(now);
  }

  lemma NanIntentIsPrepared(now: real)
    requires now >= 1.0
    ensures var prepare := Prepare(NanIntent(), "d", None);
            && ArgumentsAreTyped(prepare) && ArgumentsAreHeld(prepare)
            && Apply(prepare, Some(PendingRecord(now)), now).Ok?
  {
    var pending := PendingRecord(now);
    EnvelopeRoundTrip(NanIntent());
    assert pending.metadata + map[] == map[];
    var draft := Record("e", "r", "k", Deciding, Some(ThawEnvelope(NanIntent())), "d", None, map[], map[], 3, 1.0, now);
    assert FreezeRecord(draft) == draft.(disposition := Some(NanIntent()));
  }

  /**
   An event is reserved, marked durable and prepared with the payload `{"loss": nan}`.  The journal in
   memory answers the same call again with the same record.
   */
  lemma NanIntentIsRepeatableInMemory(now: real)
    requires now >= 1.0
    ensures var prepare := Prepare(NanIntent(), "d", None);
            var kept := Update(prepare, Some(PendingRecord(now)), now);
            kept.Ok? && Update(prepare, Some(kept.value), now) == kept
  {
    PendingIsReached(now);
    NanIntentIsPrepared(now);
    var prepare := Prepare(NanIntent(), "d", None);
    var pending := Some(PendingRecord(now));
    UpdateIsReloaded(prepare, pending, now);
    DetachIsIdentity(Apply(prepare, pending, now).value);
    RetryIsIdempotentIff(prepare, pending, now, now);
  }

  /** A journal that keeps text refuses to repeat that call. */
  lemma NanIntentIsRefusedAgain(now: real)
    requires now >= 1.0
    ensures var prepare := Prepare(NanIntent(), "d", None);
            var text := UpdateText(prepare, Some(PendingRecord(now)), now);
            text.Ok? && UpdateText(prepare, Some(text.value), now) == Err(Conflict)
  {
    PendingIsReached(now);
    NanIntentIsPrepared(now);
    var prepare := Prepare(NanIntent(), "d", None);
    var pending := Some(PendingRecord(now));
    UpdateIsReloaded(prepare, pending, now);
    assert NanIntent().payload["loss"] == NaN(Held(1));
    PrepareLeavesIntent(prepare, PendingRecord(now), now);
    RefusedIsConflict(prepare, UpdateText(prepare, pending, now).value, now);
    TextRetryIsIdempotentIff(prepare, pending, now, now);
  }

  lemma RefusedIsConflict(op: Op, r: Record, now: real)
    requires op.Prepare? && op.expected.None? && r.status.Deciding? && Staged(r) && ArgumentsAreTyped(op)
    requires UpdateText(op, Some(r), now) != Ok(r) && IsText(r)
    ensures UpdateText(op, Some(r), now) == Err(Conflict)
  {
    UpdateIsReloaded(op, Some(r), now);
  }
}
