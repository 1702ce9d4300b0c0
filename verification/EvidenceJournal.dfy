/**
 The evaluation evidence journal: one versioned record per evaluation event, moved through its
 stages by five idempotent operations.  `Apply` is the pure updater of an operation; the
 in-memory journal runs it under a lock, and the distributed one in the optimistic loop of
 module `OptimisticLoop` (see module `RedisJournal`).
 */
module EvidenceJournal {
  import opened Outcomes
  import opened Wire
  import opened OptimisticLoop

  datatype Decision = Committed | Rejected | Failed

  datatype Status =
    | Preparing
    | Pending
    | Deciding
    | Decided(decision: Decision)
    | Abandoned
  {
    predicate Terminal() { Decided? || Abandoned? }
  }

  datatype Envelope = Envelope(
    eventId: string,
    decision: Decision,
    codec: string,
    payload: Fields,
    eventKey: string,
    authorityKey: string,
    identity: Fields,
    metadata: Fields)

  // SHA-256 of the canonical JSON text of a disposition, as an injective symbol; the text does not
  // tell one NaN object from another.  A receipt may also carry a digest of something else.
  datatype Digest = OfDisposition(wire: Envelope) | OfSomethingElse(text: string)

  datatype Receipt = Receipt(
    eventId: string,
    eventKey: string,
    eventRevision: int,
    eventDigest: string,
    eventSchema: string,
    destinationKey: string,
    destinationRevision: int,
    destinationDigest: string,
    destinationSchema: string,
    dispositionDigest: Digest,
    verifier: string,
    verifiedAt: Value,
    metadata: Fields)

  datatype Record = Record(
    eventId: string,
    runId: string,
    eventKey: string,
    status: Status,
    disposition: Option<Envelope>,
    dispositionKey: string,
    verification: Option<Receipt>,
    identity: Fields,
    metadata: Fields,
    revision: int,
    createdAt: real,
    updatedAt: real)

  datatype JournalError =
    | InvalidValue        // a constructor refused its arguments
    | Conflict
    | StaleRevision
    | RetriesExhausted

  // ---- Envelopes, receipts and records as their constructors leave them ------------------

  predicate EnvelopeIsValid(e: Envelope) {
    && e.eventId != "" && e.codec != "" && e.eventKey != ""
    && (e.decision == Committed ==> e.authorityKey != "")
    && FrozenFields(e.payload) && FrozenFields(e.identity) && FrozenFields(e.metadata)
  }

  predicate IsSnapshotDigest(s: string) {
    "sha256:" <= s && |s| == 71
  }

  /** A positive time, or NaN, which is not refused either. */
  predicate IsTime(v: Value) {
    v.NaN? || (v.Number? && v.number > 0.0)
  }

  predicate ReceiptIsValid(r: Receipt) {
    && r.eventId != "" && r.eventKey != "" && r.destinationKey != ""
    && r.eventRevision > 0 && r.destinationRevision > 0
    && IsSnapshotDigest(r.eventDigest) && IsSnapshotDigest(r.destinationDigest)
    && r.eventSchema != "" && r.destinationSchema != ""
    && r.verifier != "" && IsTime(r.verifiedAt)
    && FrozenFields(r.metadata)
  }

  function FreezeEnvelope(e: Envelope): Envelope {
    e.(payload := FreezeFields(e.payload), identity := FreezeFields(e.identity),
       metadata := FreezeFields(e.metadata))
  }

  function ThawEnvelope(e: Envelope): Envelope {
    e.(payload := ThawFields(e.payload), identity := ThawFields(e.identity),
       metadata := ThawFields(e.metadata))
  }

  function FreezeReceipt(r: Receipt): Receipt {
    r.(metadata := FreezeFields(r.metadata))
  }

  function ThawReceipt(r: Receipt): Receipt {
    r.(metadata := ThawFields(r.metadata))
  }

  function FreezeRecord(r: Record): Record {
    r.(disposition := if r.disposition.Some? then Some(FreezeEnvelope(r.disposition.value)) else None,
       verification := if r.verification.Some? then Some(FreezeReceipt(r.verification.value)) else None,
       identity := FreezeFields(r.identity),
       metadata := FreezeFields(r.metadata))
  }

  function ThawRecord(r: Record): Record {
    r.(disposition := if r.disposition.Some? then Some(ThawEnvelope(r.disposition.value)) else None,
       verification := if r.verification.Some? then Some(ThawReceipt(r.verification.value)) else None,
       identity := ThawFields(r.identity),
       metadata := ThawFields(r.metadata))
  }

  /** The envelope as JSON text brings it back. */
  function ReloadEnvelope(e: Envelope): Envelope {
    e.(payload := ReloadFields(e.payload), identity := ReloadFields(e.identity),
       metadata := ReloadFields(e.metadata))
  }

  function ReloadReceipt(r: Receipt): Receipt {
    r.(verifiedAt := Reload(r.verifiedAt), metadata := ReloadFields(r.metadata))
  }

  function ReloadRecord(r: Record): Record {
    r.(disposition := if r.disposition.Some? then Some(ReloadEnvelope(r.disposition.value)) else None,
       verification := if r.verification.Some? then Some(ReloadReceipt(r.verification.value)) else None,
       identity := ReloadFields(r.identity),
       metadata := ReloadFields(r.metadata))
  }

  function DispositionDigest(e: Envelope): Digest {
    OfDisposition(ReloadEnvelope(ThawEnvelope(e)))
  }

  /** What the record constructor accepts, once its mappings are frozen. */
  predicate RecordIsValid(r: Record) {
    && r.eventId != "" && r.runId != "" && r.eventKey != ""
    && r.revision >= 1
    && 0.0 < r.createdAt <= r.updatedAt
    && FrozenFields(r.identity) && FrozenFields(r.metadata)
    && (r.disposition.Some? ==>
          EnvelopeIsValid(r.disposition.value) && r.disposition.value.eventId == r.eventId)
    && (r.status.Deciding? ==> r.disposition.Some?)
    && (r.status.Decided? ==>
          r.disposition.Some? && r.disposition.value.decision == r.status.decision)
    && (r.status.Preparing? || r.status.Pending? ==> r.disposition.None?)
    && (r.verification.Some? ==>
          && r.disposition.Some? && r.status.Decided?
          && ReceiptIsValid(r.verification.value)
          && r.verification.value.eventId == r.eventId
          && r.verification.value.eventKey == r.eventKey
          && r.verification.value.dispositionDigest == DispositionDigest(r.disposition.value))
  }

  function Construct(draft: Record): Result<Record, JournalError> {
    var r := FreezeRecord(draft);
    if RecordIsValid(r) then Ok(r) else Err(InvalidValue)
  }

  /** Turn a record into plain data and back, as the in-memory journal does before it stores or returns one. */
  function Detach(r: Record): Result<Record, JournalError> {
    Construct(ThawRecord(r))
  }

  lemma DetachIsIdentity(r: Record)
    requires RecordIsValid(r)
    ensures Detach(r) == Ok(r)
  {
    FreezeAfterThawFields(r.identity);
    FreezeAfterThawFields(r.metadata);
    if r.disposition.Some? {
      EnvelopeRoundTrip(r.disposition.value);
    }
    if r.verification.Some? {
      FreezeAfterThawFields(r.verification.value.metadata);
    }
  }

  lemma EnvelopeRoundTrip(e: Envelope)
    requires EnvelopeIsValid(e)
    ensures FreezeEnvelope(ThawEnvelope(e)) == e == FreezeEnvelope(e)
  {
    FreezeAfterThawFields(e.payload);
    FreezeAfterThawFields(e.identity);
    FreezeAfterThawFields(e.metadata);
    FreezeFrozenFields(e.payload);
    FreezeFrozenFields(e.identity);
    FreezeFrozenFields(e.metadata);
  }

  /** Thawing, writing as text, reading and freezing an envelope changes its NaN objects only. */
  lemma ReloadedEnvelope(e: Envelope)
    requires EnvelopeIsValid(e)
    ensures FreezeEnvelope(ReloadEnvelope(ThawEnvelope(e))) == ReloadEnvelope(e)
    ensures ReloadEnvelope(ThawEnvelope(ReloadEnvelope(e))) == ReloadEnvelope(ThawEnvelope(e))
    ensures ReloadEnvelope(ReloadEnvelope(e)) == ReloadEnvelope(e) && EnvelopeIsValid(ReloadEnvelope(e))
  {
    forall fields | fields == e.payload || fields == e.identity || fields == e.metadata
      ensures FreezeFields(ReloadFields(ThawFields(fields))) == ReloadFields(fields)
      ensures ReloadFields(ThawFields(ReloadFields(fields))) == ReloadFields(ThawFields(fields))
      ensures ReloadFields(ReloadFields(fields)) == ReloadFields(fields) && FrozenFields(ReloadFields(fields))
    {
      FreezeOfReloadedFields(fields);
      ReloadFieldsLaws(fields);
      ReloadFieldsLaws(ThawFields(fields));
    }
  }

  /** The digest tells two dispositions apart exactly when they differ in more than their NaN objects. */
  lemma DigestIsInjective(a: Envelope, b: Envelope)
    requires EnvelopeIsValid(a) && EnvelopeIsValid(b)
    ensures DispositionDigest(a) == DispositionDigest(b) <==> ReloadEnvelope(a) == ReloadEnvelope(b)
  {
    ReloadedEnvelope(a);
    ReloadedEnvelope(b);
  }

  // ---- Operations ------------------------------------------------------------------------

  datatype Op =
    | Reserve(eventId: string, runId: string, eventKey: string, identity: Fields, metadata: Fields,
              createdAt: real, updatedAt: real)
    | MarkDurable(eventId: string, expected: Option<int>)
    | Prepare(envelope: Envelope, dispositionKey: string, expected: Option<int>)
    | Settle(eventId: string, receipt: Receipt, expected: Option<int>)
    | Abandon(eventId: string, reason: string, metadata: Fields, expected: Option<int>)

  function EventOf(op: Op): string {
    if op.Prepare? then op.envelope.eventId else op.eventId
  }

  /** Envelopes and receipts reach the journal only through their validating constructors. */
  predicate ArgumentsAreTyped(op: Op) {
    match op
    case Prepare(envelope, _, _) => EnvelopeIsValid(envelope)
    case Settle(_, receipt, _) => ReceiptIsValid(receipt)
    case _ => true
  }

  function Requested(op: Op): Result<Record, JournalError>
    requires op.Reserve?
  {
    Construct(Record(op.eventId, op.runId, op.eventKey, Preparing, None, "", None,
                     op.identity, op.metadata, 1, op.createdAt, op.updatedAt))
  }

  function Next(current: Record, status: Status, disposition: Option<Envelope>,
                dispositionKey: Option<string>, verification: Option<Receipt>,
                metadata: Fields, now: real): Result<Record, JournalError> {
    Construct(Record(
                current.eventId, current.runId, current.eventKey, status,
                if disposition.None? then current.disposition else disposition,
                if dispositionKey.None? then current.dispositionKey else dispositionKey.value,
                if verification.None? then current.verification else verification,
                current.identity, current.metadata + metadata,
                current.revision + 1, current.createdAt, now))
  }

  function ExpectedDestination(current: Record): string
    requires current.disposition.Some?
  {
    if current.disposition.value.decision == Committed
    then current.disposition.value.authorityKey
    else current.dispositionKey
  }

  predicate ReceiptMatches(receipt: Receipt, current: Record)
    requires current.disposition.Some?
  {
    && receipt.eventId == current.eventId
    && receipt.eventKey == current.eventKey
    && receipt.destinationKey == ExpectedDestination(current)
    && receipt.dispositionDigest == DispositionDigest(current.disposition.value)
  }

  /** The updater of `op`, run on the stored record with the clock reading `now`. */
  function Apply(op: Op, current: Option<Record>, now: real): Result<Record, JournalError> {
    if op.Reserve? then
      var requested := Requested(op);
      if requested.Err? || current.None? then requested
      else
        var c := current.value;
        if c.runId == requested.value.runId && c.eventKey == requested.value.eventKey
           && c.identity == requested.value.identity
        then Ok(c) else Err(Conflict)
    else if op.Abandon? && op.reason == "" then Err(InvalidValue)
    else if current.None? then Err(Conflict)
    else if op.expected.Some? && current.value.revision != op.expected.value then Err(StaleRevision)
    else Advance(op, current.value, now)
  }

  function Advance(op: Op, current: Record, now: real): Result<Record, JournalError>
    requires !op.Reserve?
  {
    match op
    case MarkDurable(_, _) =>
      if current.status.Preparing? then Next(current, Pending, None, None, None, map[], now)
      else Ok(current)
    case Prepare(envelope, dispositionKey, _) =>
      var payload := ThawEnvelope(envelope);
      if envelope.eventKey != current.eventKey then Err(Conflict)
      else if current.status.Pending? then
        Next(current, Deciding, Some(payload), Some(dispositionKey), None, map[], now)
      else if current.status.Deciding? then
        if current.disposition == Some(payload) && current.dispositionKey == dispositionKey
        then Ok(current) else Err(Conflict)
      else if current.status == Decided(envelope.decision) && current.disposition == Some(payload)
      then Ok(current)
      else Err(Conflict)
    case Settle(_, receipt, _) =>
      if current.disposition.None? || !ReceiptMatches(receipt, current) then Err(Conflict)
      else if current.status.Decided? then
        if current.status.decision != current.disposition.value.decision then Err(Conflict)
        else if current.verification.Some? then
          if ThawReceipt(current.verification.value) == ThawReceipt(receipt)
          then Ok(current) else Err(Conflict)
        else Next(current, current.status, None, None, Some(ThawReceipt(receipt)), map[], now)
      else if current.status.Deciding? then
        Next(current, Decided(current.disposition.value.decision), None, None,
             Some(ThawReceipt(receipt)), map[], now)
      else Err(Conflict)
    case Abandon(_, reason, metadata, _) =>
      if current.status.Abandoned? then Ok(current)
      else if current.status.Terminal() then Err(Conflict)
      else
        Next(current, Abandoned, None, None, None,
             map["abandon_reason" := Text(reason)] + metadata, now)
  }

  // ---- What one operation keeps ----------------------------------------------------------

  /** A record born from `Reserve`: its revision is fixed by its stage. */
  ghost predicate Staged(r: Record) {
    && RecordIsValid(r)
    && match r.status
       case Preparing => r.revision == 1
       case Pending => r.revision == 2
       case Deciding => r.revision == 3
       case Decided(_) => r.revision == 4 && r.verification.Some?
       case Abandoned => if r.disposition.Some? then r.revision == 4 else r.revision == 2 || r.revision == 3
  }

  function Rank(status: Status): nat {
    match status
    case Preparing => 0
    case Pending => 1
    case Deciding => 2
    case _ => 3
  }

  /**
   `after` is the same record as `before` or a strictly newer version of the same evidence: the
   identity never changes, an intent or a verification never changes once present, the stage
   only advances, and nothing follows a terminal stage.
   */
  ghost predicate Evolves(before: Record, after: Record) {
    || before == after
    || (&& before.revision < after.revision
        && before.eventId == after.eventId
        && before.runId == after.runId
        && before.eventKey == after.eventKey
        && before.identity == after.identity
        && before.createdAt == after.createdAt
        && Rank(before.status) < Rank(after.status)
        && !before.status.Terminal()
        && (before.disposition.Some? ==>
              after.disposition == before.disposition && after.dispositionKey == before.dispositionKey)
        && before.metadata.Keys <= after.metadata.Keys)
  }

  lemma EvolvesIsTransitive(a: Record, b: Record, c: Record)
    requires Evolves(a, b) && Evolves(b, c)
    ensures Evolves(a, c)
  {}

  lemma ReserveStages(op: Op, now: real)
    requires op.Reserve?
    requires Apply(op, None, now).Ok?
    ensures Staged(Apply(op, None, now).value)
    ensures Apply(op, None, now).value.eventId == op.eventId
    ensures Apply(op, None, now).value.createdAt == op.createdAt
  {}

  /** Every success keeps the stage/revision law; it is a no-op or adds exactly one revision. */
  lemma StepKeepsStage(op: Op, current: Record, now: real)
    requires ArgumentsAreTyped(op)
    requires Staged(current)
    requires Apply(op, Some(current), now).Ok?
    ensures var next := Apply(op, Some(current), now).value;
            Staged(next) && Evolves(current, next)
            && (next == current || next.revision == current.revision + 1)
  {
    FreezeFrozenFields(current.identity);
    FreezeFrozenFields(current.metadata);
    if current.disposition.Some? {
      EnvelopeRoundTrip(current.disposition.value);
    }
    match op
    case Prepare(envelope, _, _) => EnvelopeRoundTrip(envelope);
    case Settle(_, receipt, _) => FreezeAfterThawFields(receipt.metadata);
    case _ =>
  }

  /** The revision expected by a caller is never reused: equal revisions mean equal records. */
  lemma RevisionIdentifiesVersion(before: Record, after: Record)
    requires Evolves(before, after)
    ensures before.revision == after.revision <==> before == after
  {}

  ghost predicate Malformed(op: Op) {
    match op
    case Reserve(eventId, runId, eventKey, _, _, createdAt, updatedAt) =>
      eventId == "" || runId == "" || eventKey == "" || !(0.0 < createdAt <= updatedAt)
    case Abandon(_, reason, _, _) => reason == ""
    case _ => false
  }

  /** While the clock does not run backwards, a constructor failure is the caller's own doing. */
  lemma OnlyMalformedRequestsAreInvalid(op: Op, current: Option<Record>, now: real)
    requires ArgumentsAreTyped(op)
    requires current.Some? ==>
               Staged(current.value) && current.value.eventId == EventOf(op) && current.value.createdAt <= now
    ensures Apply(op, current, now) == Err(InvalidValue) <==> Malformed(op)
  {
    if current.Some? {
      var c := current.value;
      FreezeFrozenFields(c.identity);
      FreezeFrozenFields(c.metadata);
      if c.disposition.Some? {
        EnvelopeRoundTrip(c.disposition.value);
      }
    }
    match op
    case Prepare(envelope, _, _) => EnvelopeRoundTrip(envelope);
    case Settle(_, receipt, _) => FreezeAfterThawFields(receipt.metadata);
    case _ =>
  }

  // ---- When an operation succeeds, and what it leaves ------------------------------------

  /** The receipt is about this record's event, destination and intent. */
  ghost predicate IsAbout(receipt: Receipt, c: Record)
    requires c.disposition.Some?
  {
    var intent := c.disposition.value;
    && receipt.eventId == c.eventId && receipt.eventKey == c.eventKey
    && receipt.destinationKey == (if intent.decision == Committed then intent.authorityKey else c.dispositionKey)
    && receipt.dispositionDigest == DispositionDigest(intent)
  }

  /** The operation agrees with the record of its event. */
  ghost predicate Agrees(op: Op, c: Record) {
    match op
    case Reserve(_, runId, eventKey, identity, _, _, _) =>
      c.runId == runId && c.eventKey == eventKey && c.identity == FreezeFields(identity)
    case MarkDurable(_, _) => true
    case Prepare(e, key, _) =>
      && c.eventKey == e.eventKey
      && (|| c.status.Pending?
          || (c.disposition == Some(e) && IntentIsSequenceFree(e)
              && (c.status == Decided(e.decision) || (c.status.Deciding? && c.dispositionKey == key))))
    case Settle(_, receipt, _) =>
      && c.disposition.Some? && IsAbout(receipt, c)
      && (c.status.Deciding? || (c.status.Decided? && c.verification == Some(receipt)))
    case Abandon(_, _, _, _) => !c.status.Decided?
  }

  ghost predicate IsStale(op: Op, c: Record) {
    !op.Reserve? && op.expected.Some? && op.expected.value != c.revision
  }

  /** The new version of the record, one revision later. */
  function Renewed(c: Record, status: Status, now: real): Record {
    c.(status := status, revision := c.revision + 1, updatedAt := now)
  }

  /** The record that a successful operation leaves, which may be the one that was there. */
  function Left(op: Op, c: Record, now: real): Record {
    match op
    case MarkDurable(_, _) => if c.status.Preparing? then Renewed(c, Pending, now) else c
    case Prepare(e, key, _) =>
      if c.status.Pending?
      then Renewed(c, Deciding, now).(disposition := Some(e), dispositionKey := key) else c
    case Settle(_, receipt, _) =>
      if c.status.Deciding? && c.disposition.Some?
      then Renewed(c, Decided(c.disposition.value.decision), now).(verification := Some(receipt)) else c
    case Abandon(_, reason, metadata, _) =>
      if c.status.Abandoned? then c
      else
        Renewed(c, Abandoned, now).(
          metadata := c.metadata + map["abandon_reason" := Text(reason)] + FreezeFields(metadata))
    case Reserve(_, _, _, _, _, _, _) => c
  }

  function Reserved(op: Op): Record
    requires op.Reserve?
  {
    Record(op.eventId, op.runId, op.eventKey, Preparing, None, "", None, FreezeFields(op.identity),
           FreezeFields(op.metadata), 1, op.createdAt, op.updatedAt)
  }

  /** For an event without a record, only a well-formed reservation succeeds. */
  lemma FirstAnswer(op: Op, now: real)
    requires ArgumentsAreTyped(op)
    ensures Apply(op, None, now) == if Malformed(op) then Err(InvalidValue)
                                    else if op.Reserve? then Ok(Reserved(op)) else Err(Conflict)
  {}

  /**
   Every answer for an event with a record: malformed requests are invalid, a wrong expected revision is
   stale, whatever disagrees with the record is a conflict, and everything else succeeds.
   */
  lemma LaterAnswer(op: Op, c: Record, now: real)
    requires ArgumentsAreTyped(op)
    requires Staged(c) && c.eventId == EventOf(op) && c.createdAt <= now
    ensures Apply(op, Some(c), now) == if Malformed(op) then Err(InvalidValue)
                                       else if IsStale(op, c) then Err(StaleRevision)
                                       else if !Agrees(op, c) then Err(Conflict)
                                       else Ok(Left(op, c, now))
  {
    FreezeFrozenFields(c.identity);
    FreezeFrozenFields(c.metadata);
    match op
    case Reserve(_, _, _, _, _, _, _) =>
    case MarkDurable(_, _) => MarkAnswer(op, c, now);
    case _ =>
      if !Malformed(op) && !IsStale(op, c) {
        if op.Prepare? {
          PrepareAnswer(op, c, now);
        } else if op.Settle? {
          SettleAnswer(op, c, now);
        } else {
          AbandonAnswer(op, c, now);
        }
      }
  }

  lemma MarkAnswer(op: Op, c: Record, now: real)
    requires op.MarkDurable?
    requires Staged(c) && c.createdAt <= now
    requires FreezeFields(c.identity) == c.identity && FreezeFields(c.metadata) == c.metadata
    ensures Apply(op, Some(c), now) == if IsStale(op, c) then Err(StaleRevision) else Ok(Left(op, c, now))
  {
    assert c.metadata + map[] == c.metadata;
    if c.disposition.Some? {
      EnvelopeRoundTrip(c.disposition.value);
    }
  }

  lemma PrepareAnswer(op: Op, c: Record, now: real)
    requires op.Prepare? && ArgumentsAreTyped(op)
    requires Staged(c) && c.eventId == EventOf(op) && c.createdAt <= now && !IsStale(op, c)
    requires FreezeFields(c.identity) == c.identity && FreezeFields(c.metadata) == c.metadata
    ensures Apply(op, Some(c), now) == if Agrees(op, c) then Ok(Left(op, c, now)) else Err(Conflict)
  {
    var e := op.envelope;
    EnvelopeRoundTrip(e);
    if c.status.Pending? {
      assert c.metadata + map[] == c.metadata;
      var next := Renewed(c, Deciding, now).(disposition := Some(e), dispositionKey := op.dispositionKey);
      assert FreezeRecord(next.(disposition := Some(ThawEnvelope(e)))) == next;
    } else if c.disposition.Some? {
      SameIntentIff(e, c.disposition.value);
    }
  }

  /** The stored intent equals the thawed envelope exactly if it is the envelope and holds no sequence. */
  lemma SameIntentIff(e: Envelope, stored: Envelope)
    requires EnvelopeIsValid(e) && EnvelopeIsValid(stored)
    ensures stored == ThawEnvelope(e) <==> stored == e && IntentIsSequenceFree(e)
  {
    EnvelopeRoundTrip(e);
    EnvelopeRoundTrip(stored);
    ThawFieldsIsIdentityIff(e.payload);
    ThawFieldsIsIdentityIff(e.identity);
    ThawFieldsIsIdentityIff(e.metadata);
  }

  lemma SettleAnswer(op: Op, c: Record, now: real)
    requires op.Settle? && ArgumentsAreTyped(op)
    requires Staged(c) && c.eventId == EventOf(op) && c.createdAt <= now && !IsStale(op, c)
    requires FreezeFields(c.identity) == c.identity && FreezeFields(c.metadata) == c.metadata
    ensures Apply(op, Some(c), now) == if Agrees(op, c) then Ok(Left(op, c, now)) else Err(Conflict)
  {
    var receipt := op.receipt;
    FreezeAfterThawFields(receipt.metadata);
    assert FreezeReceipt(ThawReceipt(receipt)) == receipt;
    assert c.metadata + map[] == c.metadata;
    if c.disposition.Some? {
      EnvelopeRoundTrip(c.disposition.value);
    }
    if c.verification.Some? {
      FreezeAfterThawFields(c.verification.value.metadata);
      assert FreezeReceipt(ThawReceipt(c.verification.value)) == c.verification.value;
    }
  }

  lemma AbandonAnswer(op: Op, c: Record, now: real)
    requires op.Abandon? && op.reason != ""
    requires Staged(c) && c.eventId == EventOf(op) && c.createdAt <= now && !IsStale(op, c)
    requires FreezeFields(c.identity) == c.identity && FreezeFields(c.metadata) == c.metadata
    ensures Apply(op, Some(c), now) == if Agrees(op, c) then Ok(Left(op, c, now)) else Err(Conflict)
  {
    AbandonMetadata(c.metadata, map["abandon_reason" := Text(op.reason)], op.metadata);
    if c.disposition.Some? {
      EnvelopeRoundTrip(c.disposition.value);
    }
  }

  lemma AbandonMetadata(kept: Fields, reason: Fields, given: Fields)
    requires FreezeFields(kept) == kept && FreezeFields(reason) == reason
    ensures FreezeFields(kept + (reason + given)) == kept + reason + FreezeFields(given)
  {
    forall k | k in kept ensures Freeze(kept[k]) == kept[k] {
      assert FreezeFields(kept)[k] == kept[k];
    }
    forall k | k in reason ensures Freeze(reason[k]) == reason[k] {
      assert FreezeFields(reason)[k] == reason[k];
    }
  }

  // ---- Retries ---------------------------------------------------------------------------

  function Unconditional(op: Op): Op {
    if op.Reserve? then op else op.(expected := None)
  }

  predicate IntentIsSequenceFree(e: Envelope) {
    SequenceFreeFields(e.payload) && SequenceFreeFields(e.identity) && SequenceFreeFields(e.metadata)
  }

  /**
   In a journal that keeps the objects it is given, repeating a successful call with the same
   arguments returns the same record and changes nothing, except that repeating `Prepare` is
   refused as soon as the intent holds a sequence anywhere: the stored intent holds tuples and the
   repeated one holds lists.  Module `JsonJournal` has the law of the journals that keep text.
   */
  lemma RetryIsIdempotentIff(op: Op, current: Option<Record>, now: real, later: real)
    requires ArgumentsAreTyped(op)
    requires current.Some? ==> Staged(current.value)
    requires Apply(op, current, now).Ok?
    ensures var r := Apply(op, current, now).value;
            Apply(Unconditional(op), Some(r), later) == Ok(r)
            <==> (op.Prepare? ==> IntentIsSequenceFree(op.envelope))
  {
    var r := Apply(op, current, now).value;
    if current.Some? {
      FreezeFrozenFields(current.value.identity);
      FreezeFrozenFields(current.value.metadata);
    }
    match op
    case Prepare(envelope, key, _) =>
      EnvelopeRoundTrip(envelope);
      PrepareLeavesIntent(op, current.value, now);
      ThawFieldsIsIdentityIff(envelope.payload);
      ThawFieldsIsIdentityIff(envelope.identity);
      ThawFieldsIsIdentityIff(envelope.metadata);
    case Settle(_, receipt, _) =>
      SettleLeavesReceipt(op, current.value, now);
    case _ =>
  }

  lemma PrepareLeavesIntent(op: Op, current: Record, now: real)
    requires op.Prepare? && ArgumentsAreTyped(op) && Staged(current)
    requires Apply(op, Some(current), now).Ok?
    ensures var r := Apply(op, Some(current), now).value;
            && (r.status.Deciding? || r.status.Decided?)
            && r.disposition == Some(op.envelope)
            && r.eventKey == op.envelope.eventKey
            && (r.status.Deciding? ==> r.dispositionKey == op.dispositionKey)
            && (r.status.Decided? ==> r.status.decision == op.envelope.decision)
  {
    EnvelopeRoundTrip(op.envelope);
    if current.disposition == Some(ThawEnvelope(op.envelope)) {
      EnvelopeRoundTrip(ThawEnvelope(op.envelope));
    }
  }

  lemma SettleLeavesReceipt(op: Op, current: Record, now: real)
    requires op.Settle? && ArgumentsAreTyped(op) && Staged(current)
    requires Apply(op, Some(current), now).Ok?
    ensures var r := Apply(op, Some(current), now).value;
            && r.status.Decided? && r.disposition == current.disposition
            && r.verification == Some(op.receipt)
            && ReceiptMatches(op.receipt, r)
            && r.status.decision == r.disposition.value.decision
            && r.eventKey == current.eventKey
  {
    FreezeAfterThawFields(op.receipt.metadata);
    if current.disposition.Some? {
      EnvelopeRoundTrip(current.disposition.value);
    }
    if current.verification.Some? {
      FreezeAfterThawFields(current.verification.value.metadata);
    }
  }

  /** A conditional call that took effect is refused as stale when it is repeated. */
  lemma ConditionalRetryIsStale(op: Op, current: Record, now: real, later: real)
    requires ArgumentsAreTyped(op) && Staged(current)
    requires !op.Reserve? && op.expected.Some?
    requires Apply(op, Some(current), now).Ok? && Apply(op, Some(current), now).value != current
    ensures Apply(op, Some(Apply(op, Some(current), now).value), later) == Err(StaleRevision)
  {
    StepKeepsStage(op, current, now);
  }

  // ---- Which intents can be settled ------------------------------------------------------

  function MatchingReceipt(current: Record): Receipt
    requires current.disposition.Some?
  {
    var digest := "sha256:" + seq(64, _ => '0');
    Receipt(current.eventId, current.eventKey, 1, digest, "event/v1",
            ExpectedDestination(current), 1, digest, "destination/v1",
            DispositionDigest(current.disposition.value), "verifier", Number(1.0), map[])
  }

  /** A pending intent has a receipt that settles it exactly when its destination key is non-empty. */
  lemma SettleableIff(current: Record, now: real)
    requires Staged(current) && current.status.Deciding? && current.createdAt <= now
    ensures (exists receipt :: ReceiptIsValid(receipt)
                               && Apply(Settle(current.eventId, receipt, None), Some(current), now).Ok?)
            <==> ExpectedDestination(current) != ""
  {
    FreezeFrozenFields(current.identity);
    FreezeFrozenFields(current.metadata);
    EnvelopeRoundTrip(current.disposition.value);
    if ExpectedDestination(current) != "" {
      var receipt := MatchingReceipt(current);
      assert ReceiptIsValid(receipt);
      FreezeAfterThawFields(receipt.metadata);
      assert Apply(Settle(current.eventId, receipt, None), Some(current), now).Ok?;
    }
  }

  /** Without a destination only abandoning ends the wait: every other success changes nothing. */
  lemma UndeliverableIntentOnlyAbandons(op: Op, current: Record, now: real)
    requires ArgumentsAreTyped(op)
    requires Staged(current) && current.status.Deciding? && ExpectedDestination(current) == ""
    requires Apply(op, Some(current), now).Ok? && Apply(op, Some(current), now).value != current
    ensures op.Abandon? && Apply(op, Some(current), now).value.status == Abandoned
  {}

  // ---- A run that fails both ways ---------------------------------------------------------

  function EmptyListEnvelope(): Envelope {
    Envelope("e", Rejected, "json", map["xs" := Tuple([])], "k", "", map[], map[])
  }

  function ReserveIt(): Op {
    Reserve("e", "r", "k", map[], map[], 1.0, 1.0)
  }

  /** The record after Reserve, MarkDurable and Prepare of a rejection with no destination. */
  function UndeliverableRecord(now: real): Record {
    Record("e", "r", "k", Deciding, Some(EmptyListEnvelope()), "", None, map[], map[], 3, 1.0, now)
  }

  /**
   An event is reserved, marked durable, and prepared for rejection with the payload `{"xs": []}`
   and an empty destination key.  Every call succeeds, repeating the last one is a conflict, and no
   receipt can settle the record.
   */
  lemma PreparedButNeitherRepeatableNorSettleable(now: real)
    requires now >= 1.0
    ensures var prepare := Prepare(EmptyListEnvelope(), "", None);
            var reserved := Apply(ReserveIt(), None, now);
            && reserved.Ok? && ArgumentsAreTyped(prepare)
            && var pending := Apply(MarkDurable("e", None), Some(reserved.value), now);
            && pending.Ok?
            && var record := UndeliverableRecord(now);
            && Staged(record)
            && Apply(prepare, Some(pending.value), now) == Ok(record)
            && Apply(prepare, Some(record), now) == Err(Conflict)
            && forall receipt | ReceiptIsValid(receipt) ::
                 !Apply(Settle("e", receipt, None), Some(record), now).Ok?
  {
    var reserved := Record("e", "r", "k", Preparing, None, "", None, map[], map[], 1, 1.0, 1.0);
    assert FreezeRecord(reserved) == reserved;
    var pending := reserved.(status := Pending, revision := 2, updatedAt := now);
    assert FreezeRecord(pending) == pending && reserved.metadata + map[] == reserved.metadata;
    var intent := EmptyListEnvelope();
    EnvelopeRoundTrip(intent);
    assert Frozen(intent.payload["xs"]) && FrozenFields(intent.payload);
    var record := UndeliverableRecord(now);
    assert pending.metadata + map[] == pending.metadata;
    assert Construct(record.(disposition := Some(ThawEnvelope(intent)))) == Ok(record) by {
      assert FreezeRecord(record.(disposition := Some(ThawEnvelope(intent)))) == record;
    }
    assert ThawEnvelope(intent).payload["xs"] == List([]);
    assert ThawEnvelope(intent) != intent;
    SettleableIff(record, now);
  }

  // ---- The locked journal ----------------------------------------------------------------

  type Records = map<string, Record>

  /** The updater as the in-memory journal runs it: what it stores and returns has been detached. */
  function Update(op: Op, current: Option<Record>, now: real): Result<Record, JournalError> {
    var updated := Apply(op, current, now);
    if updated.Ok? then Detach(updated.value) else updated
  }

  function JournalUpdater(): Updater<Op, Record, JournalError> {
    Updater((op: Op, current: Option<Record>, now: real) => Update(op, current, now),
            (op: Op) => EventOf(op), (op: Op) => ArgumentsAreTyped(op))
  }

  ghost predicate JournalInvariant(records: Records) {
    forall k <- records :: Staged(records[k]) && records[k].eventId == k
  }

  /** One update keeps every record staged, moves each one forward only, and touches one key. */
  lemma LockedKeepsInvariant(records: Records, op: Op, now: real)
    requires JournalInvariant(records) && ArgumentsAreTyped(op)
    ensures var (after, result) := Locked(JournalUpdater(), records, op, now);
            && JournalInvariant(after)
            && (forall k <- records :: k in after && Evolves(records[k], after[k]))
            && result == Apply(op, Get(records, EventOf(op)), now)
            && after == (if result.Ok? then records[EventOf(op) := result.value] else records)
  {
    var current := Get(records, EventOf(op));
    if Apply(op, current, now).Ok? {
      if current.Some? {
        StepKeepsStage(op, current.value, now);
      } else {
        ReserveStages(op, now);
      }
      DetachIsIdentity(Apply(op, current, now).value);
    }
  }

  class InMemoryJournal {
    var records: Records

    ghost predicate Valid()
      reads this
    {
      JournalInvariant(records)
    }

    constructor ()
      ensures Valid() && records == map[]
    {
      records := map[];
    }

    method AtomicUpdate(op: Op, now: real) returns (result: Result<Record, JournalError>)
      requires Valid() && ArgumentsAreTyped(op)
      modifies this
      ensures Valid()
      ensures (records, result) == Locked(JournalUpdater(), old(records), op, now)
      ensures forall k <- old(records) :: k in records && Evolves(old(records)[k], records[k])
    {
      LockedKeepsInvariant(records, op, now);
      var updated := Apply(op, Get(records, EventOf(op)), now);
      if updated.Err? {
        return updated;
      }
      var stored := Detach(updated.value);
      if stored.Err? {
        return stored;
      }
      records := records[updated.value.eventId := stored.value];
      result := Detach(updated.value);
    }

    method Read(eventId: string) returns (found: Option<Record>)
      requires Valid()
      ensures found == Get(records, eventId)
    {
      if eventId !in records {
        return None;
      }
      DetachIsIdentity(records[eventId]);
      var copy := Detach(records[eventId]);
      found := Some(copy.value);
    }
  }
}
