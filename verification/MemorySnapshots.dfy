/**
 The in-memory snapshot store.  The source spreads each snapshot over four dictionaries (records,
 expiry times, pin owners, and the expiry to restore when the last pin goes); `Tables` is those four.
 `Entry` is the simple store they implement: one entry per key with its owners and one deadline.
 */
module MemorySnapshots {
  import opened Outcomes

  // SHA-256 of schema and payload, as an injective symbol.
  datatype Digest<D> = Sha256(schema: string, data: D)

  datatype Content<D> = Content(
    schema: string, meta: D, data: D, digest: Digest<D>, createdAt: real, revision: int)

  datatype Record<D> = Record(content: Content<D>, expiresAt: Option<real>, pinned: bool)

  datatype StoreError = WriteOnce | RevisionConflict | Unencodable | Pinned | UnknownKey | EmptyOwner

  datatype Tables<D> = Tables(
    data: map<string, Record<D>>,
    expiresAt: map<string, real>,
    restore: map<string, Option<real>>,
    pins: map<string, set<string>>)

  /** `detached` is the payload after a codec round trip, or nothing when the codec refuses it. */
  datatype WriteRequest<D> = WriteRequest(
    key: string, schema: string, meta: D, detached: Option<D>, ttl: Option<real>,
    writeOnce: bool, expected: Option<int>)

  datatype Op<D> =
    | Write(request: WriteRequest<D>, sweepAt: real, now: real)
    | Read(key: string, sweepAt: real)
    | Delete(key: string)
    | Pin(key: string, owner: string)
    | Unpin(key: string, owner: string)

  datatype Reply<D> = Snapshot(record: Record<D>) | Nothing | Refused(error: StoreError)

  predicate IsPinned<D>(t: Tables<D>, key: string) {
    key in t.pins && t.pins[key] != {}
  }

  function OwnersOf<D>(t: Tables<D>, key: string): set<string> {
    if key in t.pins then t.pins[key] else {}
  }

  function Swept<D>(t: Tables<D>, now: real): Tables<D> {
    var due := set k | k in t.expiresAt && t.expiresAt[k] <= now;
    t.(data := map k | k in t.data && (k !in due || IsPinned(t, k)) :: t.data[k],
       expiresAt := map k | k in t.expiresAt && k !in due :: t.expiresAt[k])
  }

  function EffectiveTtl(ttl: Option<real>, defaultTtl: Option<real>): Option<real> {
    if ttl.Some? then ttl else defaultTtl
  }

  function Deadline(ttl: Option<real>, now: real): Option<real> {
    if ttl.Some? && ttl.value > 0.0 then Some(now + ttl.value) else None
  }

  function RevisionOf<D>(t: Tables<D>, key: string): int {
    if key in t.data then t.data[key].content.revision else 0
  }

  /** Why a write is refused, in the order of the source's checks. */
  function WriteRefusal<D>(r: WriteRequest<D>, present: bool, revision: int): Option<StoreError> {
    if r.writeOnce && present then Some(WriteOnce)
    else if r.expected.Some? && revision != r.expected.value then Some(RevisionConflict)
    else if r.detached.None? then Some(Unencodable)
    else None
  }

  function NewContent<D>(r: WriteRequest<D>, revision: int, now: real): Content<D>
    requires r.detached.Some?
  {
    Content(r.schema, r.meta, r.detached.value, Sha256(r.schema, r.detached.value), now, revision + 1)
  }

  function Written<D>(t: Tables<D>, r: WriteRequest<D>, sweepAt: real, now: real, defaultTtl: Option<real>)
    : (Tables<D>, Reply<D>)
  {
    var s := Swept(t, sweepAt);
    var refusal := WriteRefusal(r, r.key in s.data, RevisionOf(s, r.key));
    if refusal.Some? then (s, Refused(refusal.value))
    else
      var expiry := if IsPinned(s, r.key) then None else Deadline(EffectiveTtl(r.ttl, defaultTtl), now);
      var record := Record(NewContent(r, RevisionOf(s, r.key), now), expiry, IsPinned(s, r.key));
      (s.(data := s.data[r.key := record],
          expiresAt := if expiry.Some? then s.expiresAt[r.key := expiry.value] else s.expiresAt - {r.key}),
       Snapshot(record))
  }

  function Fetched<D>(t: Tables<D>, key: string, sweepAt: real): (Tables<D>, Reply<D>) {
    var s := Swept(t, sweepAt);
    (s, if key in s.data then Snapshot(s.data[key]) else Nothing)
  }

  function Deleted<D>(t: Tables<D>, key: string): (Tables<D>, Reply<D>) {
    if IsPinned(t, key) then (t, Refused(Pinned))
    else
      (t.(data := t.data - {key}, expiresAt := t.expiresAt - {key}, restore := t.restore - {key}), Nothing)
  }

  function PinnedBy<D>(t: Tables<D>, key: string, owner: string): (Tables<D>, Reply<D>) {
    if owner == "" then (t, Refused(EmptyOwner))
    else if key !in t.data then (t, Refused(UnknownKey))
    else
      var record := t.data[key].(expiresAt := None, pinned := true);
      (Tables(t.data[key := record], t.expiresAt - {key},
              if IsPinned(t, key) then t.restore else t.restore[key := t.data[key].expiresAt],
              t.pins[key := OwnersOf(t, key) + {owner}]),
       Snapshot(record))
  }

  function UnpinnedBy<D>(t: Tables<D>, key: string, owner: string): (Tables<D>, Reply<D>) {
    if key !in t.data then (t, Refused(UnknownKey))
    else
      var owners := OwnersOf(t, key) - {owner};
      if owners != {} then
        var record := t.data[key].(expiresAt := None, pinned := true);
        (t.(data := t.data[key := record], pins := t.pins[key := owners]), Snapshot(record))
      else
        var expiry := if key in t.restore then t.restore[key] else None;
        var record := t.data[key].(expiresAt := expiry, pinned := false);
        (Tables(t.data[key := record],
                if expiry.Some? then t.expiresAt[key := expiry.value] else t.expiresAt,
                t.restore - {key}, t.pins - {key}),
         Snapshot(record))
  }

  /** The effect of one operation on the four dictionaries, and its reply. */
  function Do<D>(t: Tables<D>, op: Op<D>, defaultTtl: Option<real>): (Tables<D>, Reply<D>) {
    match op
    case Write(r, sweepAt, now) => Written(t, r, sweepAt, now, defaultTtl)
    case Read(key, sweepAt) => Fetched(t, key, sweepAt)
    case Delete(key) => Deleted(t, key)
    case Pin(key, owner) => PinnedBy(t, key, owner)
    case Unpin(key, owner) => UnpinnedBy(t, key, owner)
  }

  function Run<D>(t: Tables<D>, ops: seq<Op<D>>, defaultTtl: Option<real>): Tables<D>
    decreases |ops|
  {
    if ops == [] then t else Run(Do(t, ops[0], defaultTtl).0, ops[1..], defaultTtl)
  }

  // ---- The class -------------------------------------------------------------------------

  class MemoryStore<D> {
    const defaultTtl: Option<real>
    var data: map<string, Record<D>>
    var expiresAt: map<string, real>
    var restore: map<string, Option<real>>
    var pins: map<string, set<string>>

    ghost function State(): Tables<D>
      reads this
    {
      Tables(data, expiresAt, restore, pins)
    }

    ghost predicate Valid()
      reads this
    {
      Consistent(State())
    }

    constructor (defaultTtl: Option<real>)
      ensures Valid() && State() == Tables(map[], map[], map[], map[])
      ensures this.defaultTtl == defaultTtl
    {
      this.defaultTtl := defaultTtl;
      data, expiresAt, restore, pins := map[], map[], map[], map[];
    }

    method Sweep(now: real)
      modifies this`data, this`expiresAt
      ensures State() == Swept(old(State()), now)
    {
      var due := set k | k in expiresAt && expiresAt[k] <= now;
      ghost var start := State();
      ghost var handled: set<string> := {};
      var pending := due;
      while pending != {}
        invariant pending + handled == due && pending !! handled
        invariant pins == start.pins && restore == start.restore
        invariant expiresAt == start.expiresAt - handled
        invariant data == map k | k in start.data && (k !in handled || IsPinned(start, k)) :: start.data[k]
        decreases pending
      {
        var key :| key in pending;
        expiresAt := expiresAt - {key};
        if !(key in pins && pins[key] != {}) {
          data := data - {key};
        }
        pending := pending - {key};
        handled := handled + {key};
      }
    }

    method Put(request: WriteRequest<D>, sweepAt: real, now: real) returns (reply: Reply<D>)
      requires Valid()
      modifies this
      ensures Valid()
      ensures (State(), reply) == Written(old(State()), request, sweepAt, now, defaultTtl)
    {
      WriteKeepsConsistent(State(), request, sweepAt, now, defaultTtl);
      Sweep(sweepAt);
      var key := request.key;
      var revision := 0;
      if key in data {
        revision := data[key].content.revision;
      }
      if request.writeOnce && key in data {
        return Refused(WriteOnce);
      }
      if request.expected.Some? && revision != request.expected.value {
        return Refused(RevisionConflict);
      }
      if request.detached.None? {
        return Refused(Unencodable);
      }
      var pinned := key in pins && pins[key] != {};
      var expiry: Option<real> := None;
      if !pinned {
        expiry := Deadline(EffectiveTtl(request.ttl, defaultTtl), now);
      }
      var record := Record(NewContent(request, revision, now), expiry, pinned);
      data := data[key := record];
      if expiry.Some? {
        expiresAt := expiresAt[key := expiry.value];
      } else {
        expiresAt := expiresAt - {key};
      }
      reply := Snapshot(record);
    }

    method Fetch(key: string, sweepAt: real) returns (reply: Reply<D>)
      requires Valid()
      modifies this
      ensures Valid()
      ensures (State(), reply) == Fetched(old(State()), key, sweepAt)
    {
      SweepKeepsConsistent(State(), sweepAt);
      Sweep(sweepAt);
      reply := Nothing;
      if key in data {
        reply := Snapshot(data[key]);
      }
    }

    method Remove(key: string) returns (reply: Reply<D>)
      requires Valid()
      modifies this
      ensures Valid()
      ensures (State(), reply) == Deleted(old(State()), key)
    {
      DeleteKeepsConsistent(State(), key);
      if key in pins && pins[key] != {} {
        return Refused(Pinned);
      }
      data := data - {key};
      expiresAt := expiresAt - {key};
      restore := restore - {key};
      reply := Nothing;
    }

    method AddPin(key: string, owner: string) returns (reply: Reply<D>)
      requires Valid()
      modifies this
      ensures Valid()
      ensures (State(), reply) == PinnedBy(old(State()), key, owner)
    {
      PinKeepsConsistent(State(), key, owner);
      ghost var expected := PinnedBy(State(), key, owner).0;
      if owner == "" {
        return Refused(EmptyOwner);
      }
      if key !in data {
        return Refused(UnknownKey);
      }
      var owners := if key in pins then pins[key] else {};
      if owners == {} {
        restore := restore[key := data[key].expiresAt];
      }
      pins := pins[key := owners + {owner}];
      expiresAt := expiresAt - {key};
      data := data[key := data[key].(expiresAt := None, pinned := true)];
      assert State() == expected;
      reply := Snapshot(data[key]);
    }

    method DropPin(key: string, owner: string) returns (reply: Reply<D>)
      requires Valid()
      modifies this
      ensures Valid()
      ensures (State(), reply) == UnpinnedBy(old(State()), key, owner)
    {
      UnpinKeepsConsistent(State(), key, owner);
      ghost var expected := UnpinnedBy(State(), key, owner).0;
      if key !in data {
        return Refused(UnknownKey);
      }
      var owners := (if key in pins then pins[key] else {}) - {owner};
      var pinned := owners != {};
      var expiry: Option<real> := None;
      if pinned {
        pins := pins[key := owners];
      } else {
        pins := pins - {key};
        expiry := if key in restore then restore[key] else None;
        restore := restore - {key};
      }
      data := data[key := data[key].(expiresAt := expiry, pinned := pinned)];
      if expiry.Some? && !pinned {
        expiresAt := expiresAt[key := expiry.value];
      }
      assert State() == expected;
      reply := Snapshot(data[key]);
    }
  }

  // ---- Consistency of the four dictionaries ----------------------------------------------

  ghost predicate Consistent<D>(t: Tables<D>) {
    && t.pins.Keys == t.restore.Keys
    && (forall k <- t.pins :: t.pins[k] != {} && k in t.data && k !in t.expiresAt)
    && (forall k <- t.expiresAt :: k in t.data)
    && (forall k <- t.data ::
          && t.data[k].content.revision >= 1
          && (t.data[k].pinned <==> k in t.pins)
          && (t.data[k].expiresAt.Some? ==>
                k in t.expiresAt && t.expiresAt[k] == t.data[k].expiresAt.value))
  }

  lemma SweepKeepsConsistent<D>(t: Tables<D>, now: real)
    requires Consistent(t)
    ensures Consistent(Swept(t, now))
    ensures forall k <- t.pins :: k in Swept(t, now).data && Swept(t, now).data[k] == t.data[k]
    ensures Swept(t, now).pins == t.pins && Swept(t, now).restore == t.restore
  {}

  lemma WriteKeepsConsistent<D>(t: Tables<D>, r: WriteRequest<D>, sweepAt: real, now: real,
                                defaultTtl: Option<real>)
    requires Consistent(t)
    ensures Consistent(Written(t, r, sweepAt, now, defaultTtl).0)
  {
    SweepKeepsConsistent(t, sweepAt);
  }

  lemma DeleteKeepsConsistent<D>(t: Tables<D>, key: string)
    requires Consistent(t)
    ensures Consistent(Deleted(t, key).0)
  {}

  lemma PinKeepsConsistent<D>(t: Tables<D>, key: string, owner: string)
    requires Consistent(t)
    ensures Consistent(PinnedBy(t, key, owner).0)
  {}

  lemma UnpinKeepsConsistent<D>(t: Tables<D>, key: string, owner: string)
    requires Consistent(t)
    ensures Consistent(UnpinnedBy(t, key, owner).0)
  {}

  lemma StepKeepsConsistent<D>(t: Tables<D>, op: Op<D>, defaultTtl: Option<real>)
    requires Consistent(t)
    ensures Consistent(Do(t, op, defaultTtl).0)
  {
    match op
    case Write(r, sweepAt, now) => WriteKeepsConsistent(t, r, sweepAt, now, defaultTtl);
    case Read(_, sweepAt) => SweepKeepsConsistent(t, sweepAt);
    case Delete(key) => DeleteKeepsConsistent(t, key);
    case Pin(key, owner) => PinKeepsConsistent(t, key, owner);
    case Unpin(key, owner) => UnpinKeepsConsistent(t, key, owner);
  }

  lemma {:induction false} EveryRunKeepsConsistent<D>(t: Tables<D>, ops: seq<Op<D>>, defaultTtl: Option<real>)
    requires Consistent(t)
    ensures Consistent(Run(t, ops, defaultTtl))
    decreases |ops|
  {
    if ops != [] {
      StepKeepsConsistent(t, ops[0], defaultTtl);
      EveryRunKeepsConsistent(Do(t, ops[0], defaultTtl).0, ops[1..], defaultTtl);
    }
  }

  // ---- Pinned snapshots ------------------------------------------------------------------

  /** Whether this step is a successful write to `key`. */
  predicate WritesKey<D>(t: Tables<D>, op: Op<D>, defaultTtl: Option<real>, key: string) {
    op.Write? && op.request.key == key && Do(t, op, defaultTtl).1.Snapshot?
  }

  /** Successful writes to `key` in a run. */
  function WritesTo<D>(t: Tables<D>, ops: seq<Op<D>>, defaultTtl: Option<real>, key: string): nat
    decreases |ops|
  {
    if ops == [] then 0
    else
      (if WritesKey(t, ops[0], defaultTtl, key) then 1 else 0)
      + WritesTo(Do(t, ops[0], defaultTtl).0, ops[1..], defaultTtl, key)
  }

  lemma PinSurvivesWrite<D>(t: Tables<D>, r: WriteRequest<D>, sweepAt: real, now: real,
                            defaultTtl: Option<real>, key: string)
    requires Consistent(t) && key in t.pins
    ensures var (next, reply) := Written(t, r, sweepAt, now, defaultTtl);
            && next.pins == t.pins && next.restore == t.restore && key in next.data
            && if r.key == key && reply.Snapshot?
               then next.data[key].content.revision == t.data[key].content.revision + 1
               else next.data[key] == t.data[key]
  {
    SweepKeepsConsistent(t, sweepAt);
  }

  lemma PinSurvivesStep<D>(t: Tables<D>, op: Op<D>, defaultTtl: Option<real>, key: string, owner: string)
    requires Consistent(t)
    requires key in t.pins && owner in t.pins[key] && op != Unpin(key, owner)
    ensures var next := Do(t, op, defaultTtl).0;
            && key in next.pins && owner in next.pins[key] && key in next.data
            && key in next.restore && next.restore[key] == t.restore[key]
            && if WritesKey(t, op, defaultTtl, key)
               then next.data[key].content.revision == t.data[key].content.revision + 1
               else next.data[key].content == t.data[key].content
  {
    match op
    case Write(r, sweepAt, now) => PinSurvivesWrite(t, r, sweepAt, now, defaultTtl, key);
    case Read(_, sweepAt) => SweepKeepsConsistent(t, sweepAt);
    case Delete(_) =>
    case Pin(_, _) =>
    case Unpin(unpinned, leaving) =>
      if unpinned == key {
        assert owner in OwnersOf(t, key) - {leaving};
      }
  }

  /**
   Until its owner unpins it, a pinned snapshot survives every sweep, delete and overwrite: only
   successful writes change it, each by one revision, and the expiry saved at the first pin stays.
   */
  lemma {:induction false} PinnedSnapshotSurvives<D>(
    t: Tables<D>, ops: seq<Op<D>>, defaultTtl: Option<real>, key: string, owner: string)
    requires Consistent(t)
    requires key in t.pins && owner in t.pins[key]
    requires Unpin(key, owner) !in ops
    ensures var end := Run(t, ops, defaultTtl);
            && Consistent(end)
            && key in end.pins && owner in end.pins[key]
            && end.restore[key] == t.restore[key]
            && end.data[key].content.revision
               == t.data[key].content.revision + WritesTo(t, ops, defaultTtl, key)
    decreases |ops|
  {
    if ops != [] {
      StepKeepsConsistent(t, ops[0], defaultTtl);
      PinSurvivesStep(t, ops[0], defaultTtl, key, owner);
      PinnedSnapshotSurvives(Do(t, ops[0], defaultTtl).0, ops[1..], defaultTtl, key, owner);
    }
  }

  ghost predicate StaysPinned<D>(t: Tables<D>, ops: seq<Op<D>>, defaultTtl: Option<real>, key: string)
    decreases |ops|
  {
    key in t.pins && (ops != [] ==> StaysPinned(Do(t, ops[0], defaultTtl).0, ops[1..], defaultTtl, key))
  }

  lemma SavedExpiryStaysOneStep<D>(t: Tables<D>, op: Op<D>, defaultTtl: Option<real>, key: string)
    requires Consistent(t) && key in t.pins && key in Do(t, op, defaultTtl).0.pins
    ensures var next := Do(t, op, defaultTtl).0; key in next.restore && next.restore[key] == t.restore[key]
  {
    match op
    case Write(r, sweepAt, now) => PinSurvivesWrite(t, r, sweepAt, now, defaultTtl, key);
    case Read(_, sweepAt) => SweepKeepsConsistent(t, sweepAt);
    case Delete(other) => SavedExpirySurvivesDelete(t, other, key);
    case Pin(other, owner) => SavedExpirySurvivesPin(t, other, owner, key);
    case Unpin(other, owner) => SavedExpirySurvivesUnpin(t, other, owner, key);
  }

  lemma SavedExpirySurvivesDelete<D>(t: Tables<D>, other: string, key: string)
    requires Consistent(t) && key in t.pins
    ensures var next := Deleted(t, other).0; key in next.restore && next.restore[key] == t.restore[key]
  {}

  lemma SavedExpirySurvivesPin<D>(t: Tables<D>, other: string, owner: string, key: string)
    requires Consistent(t) && key in t.pins
    ensures var next := PinnedBy(t, other, owner).0; key in next.restore && next.restore[key] == t.restore[key]
  {}

  lemma SavedExpirySurvivesUnpin<D>(t: Tables<D>, other: string, owner: string, key: string)
    requires Consistent(t) && key in t.pins && key in UnpinnedBy(t, other, owner).0.pins
    ensures var next := UnpinnedBy(t, other, owner).0; key in next.restore && next.restore[key] == t.restore[key]
  {}

  lemma {:induction false} SavedExpiryStays<D>(
    t: Tables<D>, ops: seq<Op<D>>, defaultTtl: Option<real>, key: string)
    requires Consistent(t) && StaysPinned(t, ops, defaultTtl, key)
    ensures var end := Run(t, ops, defaultTtl);
            Consistent(end) && key in end.pins && end.restore[key] == t.restore[key]
    decreases |ops|
  {
    if ops != [] {
      StepKeepsConsistent(t, ops[0], defaultTtl);
      var next := Do(t, ops[0], defaultTtl).0;
      SavedExpiryStaysOneStep(t, ops[0], defaultTtl, key);
      SavedExpiryStays(next, ops[1..], defaultTtl, key);
    }
  }

  function ExpiryOf<D>(t: Tables<D>, key: string): Option<real> {
    Get(t.expiresAt, key)
  }

  /** The record of an unpinned key shows the expiry that the expiry table enforces. */
  ghost predicate ShowsExpiry<D>(t: Tables<D>, key: string)
    requires key in t.data
  {
    key in t.pins || t.data[key].expiresAt == ExpiryOf(t, key)
  }

  /**
   Pin, anything that leaves the key pinned, then the unpin that releases the last owner: the key
   expires again exactly when it did before, if and only if its record showed that expiry when it
   was first pinned.
   */
  lemma LastUnpinRestoresExpiryIff<D>(
    t: Tables<D>, owner: string, ops: seq<Op<D>>, last: string, defaultTtl: Option<real>, key: string)
    requires Consistent(t) && key in t.data && key !in t.pins && owner != ""
    requires StaysPinned(Do(t, Pin(key, owner), defaultTtl).0, ops, defaultTtl, key)
    requires OwnersOf(Run(Do(t, Pin(key, owner), defaultTtl).0, ops, defaultTtl), key) <= {last}
    ensures var before := Run(Do(t, Pin(key, owner), defaultTtl).0, ops, defaultTtl);
            var after := Do(before, Unpin(key, last), defaultTtl).0;
            && key in after.data && key !in after.pins
            && (ExpiryOf(after, key) == ExpiryOf(t, key) <==> ShowsExpiry(t, key))
  {
    var pinned := Do(t, Pin(key, owner), defaultTtl).0;
    StepKeepsConsistent(t, Pin(key, owner), defaultTtl);
    SavedExpiryStays(pinned, ops, defaultTtl, key);
    assert pinned.restore[key] == t.data[key].expiresAt;
  }

  // ---- The simple store ------------------------------------------------------------------

  datatype Entry<D> = Entry(content: Content<D>, owners: set<string>, deadline: Option<real>)

  type Simple<D> = map<string, Entry<D>>

  /** What a caller sees of an entry: the deadline is hidden while somebody pins it. */
  function View<D>(e: Entry<D>): Record<D> {
    Record(e.content, if e.owners == {} then e.deadline else None, e.owners != {})
  }

  predicate IsDue<D>(e: Entry<D>, now: real) {
    e.owners == {} && e.deadline.Some? && e.deadline.value <= now
  }

  function SimpleSwept<D>(a: Simple<D>, now: real): Simple<D> {
    map k | k in a && !IsDue(a[k], now) :: a[k]
  }

  function SimpleWritten<D>(a: Simple<D>, r: WriteRequest<D>, sweepAt: real, now: real,
                            defaultTtl: Option<real>): (Simple<D>, Reply<D>)
  {
    var s := SimpleSwept(a, sweepAt);
    var revision := if r.key in s then s[r.key].content.revision else 0;
    var refusal := WriteRefusal(r, r.key in s, revision);
    if refusal.Some? then (s, Refused(refusal.value))
    else
      var content := NewContent(r, revision, now);
      var e := if r.key in s && s[r.key].owners != {} then s[r.key].(content := content)
               else Entry(content, {}, Deadline(EffectiveTtl(r.ttl, defaultTtl), now));
      (s[r.key := e], Snapshot(View(e)))
  }

  function SimpleDo<D>(a: Simple<D>, op: Op<D>, defaultTtl: Option<real>): (Simple<D>, Reply<D>) {
    match op
    case Write(r, sweepAt, now) => SimpleWritten(a, r, sweepAt, now, defaultTtl)
    case Read(key, sweepAt) =>
      var s := SimpleSwept(a, sweepAt);
      (s, if key in s then Snapshot(View(s[key])) else Nothing)
    case Delete(key) =>
      if key in a && a[key].owners != {} then (a, Refused(Pinned)) else (a - {key}, Nothing)
    case Pin(key, owner) =>
      if owner == "" then (a, Refused(EmptyOwner))
      else if key !in a then (a, Refused(UnknownKey))
      else
        var e := a[key].(owners := a[key].owners + {owner});
        (a[key := e], Snapshot(View(e)))
    case Unpin(key, owner) =>
      if key !in a then (a, Refused(UnknownKey))
      else
        var e := a[key].(owners := a[key].owners - {owner});
        (a[key := e], Snapshot(View(e)))
  }

  function EntryOf<D>(t: Tables<D>, key: string): Entry<D>
    requires key in t.data
  {
    Entry(t.data[key].content, OwnersOf(t, key),
          if key in t.restore then t.restore[key] else ExpiryOf(t, key))
  }

  function Abstract<D>(t: Tables<D>): Simple<D> {
    map k | k in t.data :: EntryOf(t, k)
  }

  ghost predicate Coherent<D>(t: Tables<D>) {
    forall k <- t.data :: ShowsExpiry(t, k)
  }

  /** Unpinning a key that nobody pins although it has an expiry. */
  predicate IsStrayUnpin<D>(t: Tables<D>, op: Op<D>) {
    op.Unpin? && op.key in t.data && op.key !in t.pins && op.key in t.expiresAt
  }

  lemma SweepRefines<D>(t: Tables<D>, now: real)
    requires Consistent(t) && Coherent(t)
    ensures Coherent(Swept(t, now))
    ensures Abstract(Swept(t, now)) == SimpleSwept(Abstract(t), now)
  {}

  /**
   The four dictionaries behave as the simple store, state and reply, as long as no stray unpin
   occurs; a stray unpin hides an expiry that is still enforced.
   */
  lemma TablesRefineSimpleStore<D>(t: Tables<D>, op: Op<D>, defaultTtl: Option<real>)
    requires Consistent(t) && Coherent(t)
    ensures Coherent(Do(t, op, defaultTtl).0) <==> !IsStrayUnpin(t, op)
    ensures !IsStrayUnpin(t, op) ==>
              (Abstract(Do(t, op, defaultTtl).0), Do(t, op, defaultTtl).1)
              == SimpleDo(Abstract(t), op, defaultTtl)
  {
    match op
    case Write(r, sweepAt, now) => WriteRefines(t, r, sweepAt, now, defaultTtl);
    case Read(_, sweepAt) => SweepRefines(t, sweepAt);
    case Delete(key) => DeleteRefines(t, key);
    case Pin(key, owner) => PinRefines(t, key, owner, defaultTtl);
    case Unpin(key, owner) =>
      UnpinStaysCoherentIff(t, key, owner);
      if !IsStrayUnpin(t, op) {
        UnpinRefines(t, key, owner, defaultTtl);
      }
  }

  lemma WriteRefines<D>(t: Tables<D>, r: WriteRequest<D>, sweepAt: real, now: real, defaultTtl: Option<real>)
    requires Consistent(t) && Coherent(t)
    ensures Coherent(Written(t, r, sweepAt, now, defaultTtl).0)
    ensures (Abstract(Written(t, r, sweepAt, now, defaultTtl).0), Written(t, r, sweepAt, now, defaultTtl).1)
            == SimpleWritten(Abstract(t), r, sweepAt, now, defaultTtl)
  {
    SweepKeepsConsistent(t, sweepAt);
    SweepRefines(t, sweepAt);
    var s := Swept(t, sweepAt);
    var (after, reply) := Written(t, r, sweepAt, now, defaultTtl);
    if reply.Snapshot? {
      AcceptedWriteRefines(s, after, r, now, defaultTtl);
    }
  }

  lemma AcceptedWriteRefines<D>(s: Tables<D>, after: Tables<D>, r: WriteRequest<D>, now: real,
                                defaultTtl: Option<real>)
    requires Coherent(s) && r.detached.Some?
    requires IsPinned(s, r.key) <==> r.key in s.pins
    requires r.key in s.pins <==> r.key in s.restore
    requires IsPinned(s, r.key) ==> r.key in s.data && r.key !in s.expiresAt
    requires var expiry := if IsPinned(s, r.key) then None else Deadline(EffectiveTtl(r.ttl, defaultTtl), now);
             after == s.(data := s.data[r.key :=
                           Record(NewContent(r, RevisionOf(s, r.key), now), expiry, IsPinned(s, r.key))],
                         expiresAt := if expiry.Some? then s.expiresAt[r.key := expiry.value]
                                      else s.expiresAt - {r.key})
    ensures Coherent(after)
    ensures var content := NewContent(r, RevisionOf(s, r.key), now);
            Abstract(after) == Abstract(s)[r.key :=
              if IsPinned(s, r.key) then EntryOf(s, r.key).(content := content)
              else Entry(content, {}, Deadline(EffectiveTtl(r.ttl, defaultTtl), now))]
    ensures after.data[r.key] == View(EntryOf(after, r.key))
  {
    forall k <- after.data ensures ShowsExpiry(after, k) {
      if k != r.key {
        assert ShowsExpiry(s, k);
      }
    }
    forall k <- s.data | k != r.key ensures EntryOf(after, k) == EntryOf(s, k) {
    }
    assert Abstract(after) == Abstract(s)[r.key := EntryOf(after, r.key)];
  }

  lemma DeleteRefines<D>(t: Tables<D>, key: string)
    requires Consistent(t) && Coherent(t)
    ensures Coherent(Deleted(t, key).0)
    ensures !IsPinned(t, key) ==> Abstract(Deleted(t, key).0) == Abstract(t) - {key}
  {}

  lemma PinRefines<D>(t: Tables<D>, key: string, owner: string, defaultTtl: Option<real>)
    requires Consistent(t) && Coherent(t)
    ensures Coherent(PinnedBy(t, key, owner).0)
    ensures (Abstract(PinnedBy(t, key, owner).0), PinnedBy(t, key, owner).1)
            == SimpleDo(Abstract(t), Pin(key, owner), defaultTtl)
  {
    var after := PinnedBy(t, key, owner).0;
    if owner != "" && key in t.data {
      assert Abstract(after) == Abstract(t)[key := EntryOf(after, key)];
    }
  }

  lemma UnpinKeepsOthers<D>(t: Tables<D>, key: string, owner: string, other: string)
    requires other in t.data && other != key
    ensures var after := UnpinnedBy(t, key, owner).0;
            && other in after.data && EntryOf(after, other) == EntryOf(t, other)
            && (ShowsExpiry(after, other) <==> ShowsExpiry(t, other))
  {}

  lemma UnpinStaysCoherentIff<D>(t: Tables<D>, key: string, owner: string)
    requires Consistent(t) && Coherent(t)
    ensures Coherent(UnpinnedBy(t, key, owner).0) <==> !IsStrayUnpin<D>(t, Unpin(key, owner))
  {
    var after := UnpinnedBy(t, key, owner).0;
    forall other <- t.data | other != key ensures ShowsExpiry(after, other) {
      UnpinKeepsOthers(t, key, owner, other);
    }
    if key in t.data {
      assert ShowsExpiry(after, key) <==> !IsStrayUnpin<D>(t, Unpin(key, owner));
    }
  }

  /** The unpinned key has lost its owner, nothing else, and is shown to the caller as it is. */
  lemma UnpinTakesOwner<D>(t: Tables<D>, key: string, owner: string)
    requires Consistent(t) && Coherent(t) && !IsStrayUnpin<D>(t, Unpin(key, owner)) && key in t.data
    ensures var after := UnpinnedBy(t, key, owner).0;
            && after.data.Keys == t.data.Keys
            && EntryOf(after, key) == EntryOf(t, key).(owners := OwnersOf(t, key) - {owner})
    ensures UnpinnedBy(t, key, owner).1 == Snapshot(View(EntryOf(UnpinnedBy(t, key, owner).0, key)))
  {}

  lemma UnpinRefines<D>(t: Tables<D>, key: string, owner: string, defaultTtl: Option<real>)
    requires Consistent(t) && Coherent(t) && !IsStrayUnpin<D>(t, Unpin(key, owner))
    ensures (Abstract(UnpinnedBy(t, key, owner).0), UnpinnedBy(t, key, owner).1)
            == SimpleDo(Abstract(t), Unpin(key, owner), defaultTtl)
  {
    if key in t.data {
      UnpinTakesOwner(t, key, owner);
      AbstractUpdates(t, UnpinnedBy(t, key, owner).0, key, owner);
    }
  }

  lemma AbstractUpdates<D>(t: Tables<D>, after: Tables<D>, key: string, owner: string)
    requires after == UnpinnedBy(t, key, owner).0 && key in t.data && after.data.Keys == t.data.Keys
    ensures Abstract(after) == Abstract(t)[key := EntryOf(after, key)]
  {
    forall other <- t.data | other != key ensures EntryOf(after, other) == EntryOf(t, other) {
      UnpinKeepsOthers(t, key, owner, other);
    }
  }

  // ---- Compare-and-set and lifetimes -----------------------------------------------------

  /** A snapshot is there at this time: pinned, or not due. */
  ghost predicate IsLive<D>(t: Tables<D>, key: string, at: real) {
    key in t.data && (key in t.pins || (key in t.expiresAt ==> at < t.expiresAt[key]))
  }

  ghost function LiveRevision<D>(t: Tables<D>, key: string, at: real): int {
    if IsLive(t, key, at) then t.data[key].content.revision else 0
  }

  lemma SweepKeepsLive<D>(t: Tables<D>, key: string, at: real)
    requires Consistent(t)
    ensures key in Swept(t, at).data <==> IsLive(t, key, at)
    ensures IsLive(t, key, at) ==> Swept(t, at).data[key] == t.data[key]
    ensures IsPinned(Swept(t, at), key) <==> key in t.pins
  {}

  /** When a write is refused, and for which reason. */
  lemma WriteIsRefusedIff<D>(t: Tables<D>, r: WriteRequest<D>, sweepAt: real, now: real, defaultTtl: Option<real>)
    requires Consistent(t)
    ensures var reply := Do(t, Write(r, sweepAt, now), defaultTtl).1;
            && (reply == Refused(WriteOnce) <==> r.writeOnce && IsLive(t, r.key, sweepAt))
            && (reply == Refused(RevisionConflict) <==>
                  !(r.writeOnce && IsLive(t, r.key, sweepAt))
                  && r.expected.Some? && r.expected.value != LiveRevision(t, r.key, sweepAt))
            && (reply == Refused(Unencodable) <==>
                  !(r.writeOnce && IsLive(t, r.key, sweepAt)) && r.detached.None?
                  && (r.expected.Some? ==> r.expected.value == LiveRevision(t, r.key, sweepAt)))
            && (reply.Refused? ==> reply.error in {WriteOnce, RevisionConflict, Unencodable}) && reply != Nothing
  {
    SweepKeepsLive(t, r.key, sweepAt);
  }

  /** What an accepted write stores and shows: the data it was given, one revision after the live one. */
  lemma AcceptedWriteStores<D>(t: Tables<D>, r: WriteRequest<D>, sweepAt: real, now: real, defaultTtl: Option<real>)
    requires Consistent(t) && Do(t, Write(r, sweepAt, now), defaultTtl).1.Snapshot?
    ensures var (after, reply) := Do(t, Write(r, sweepAt, now), defaultTtl);
            && r.key in after.data && after.data[r.key] == reply.record
            && (reply.record.pinned <==> r.key in t.pins)
            && var c := reply.record.content;
               && Some(c.data) == r.detached && c.schema == r.schema && c.meta == r.meta && c.createdAt == now
               && c.digest == Sha256(r.schema, c.data)
               && c.revision == LiveRevision(t, r.key, sweepAt) + 1
               && (r.expected.Some? ==> c.revision == r.expected.value + 1)
  {
    SweepKeepsLive(t, r.key, sweepAt);
  }

  /** An unpinned snapshot lives as long as asked, else as long as the default, and without either for ever. */
  lemma WrittenLivesUntil<D>(t: Tables<D>, r: WriteRequest<D>, sweepAt: real, now: real, defaultTtl: Option<real>,
                             at: real)
    requires Consistent(t) && r.key !in t.pins && Do(t, Write(r, sweepAt, now), defaultTtl).1.Snapshot?
    ensures var (after, reply) := Do(t, Write(r, sweepAt, now), defaultTtl);
            var found := Do(after, Read(r.key, at), defaultTtl).1;
            && found == (if match (r.ttl, defaultTtl)
                            case (Some(d), _) => d <= 0.0 || at < now + d
                            case (None, Some(d)) => d <= 0.0 || at < now + d
                            case (None, None) => true
                         then reply else Nothing)
  {
    SweepKeepsLive(t, r.key, sweepAt);
  }

  /** A pinned snapshot that is overwritten is found at any time. */
  lemma PinnedWriteLives<D>(t: Tables<D>, r: WriteRequest<D>, sweepAt: real, now: real, defaultTtl: Option<real>,
                            at: real)
    requires Consistent(t) && r.key in t.pins && Do(t, Write(r, sweepAt, now), defaultTtl).1.Snapshot?
    ensures var (after, reply) := Do(t, Write(r, sweepAt, now), defaultTtl);
            Do(after, Read(r.key, at), defaultTtl).1 == reply && reply.record.expiresAt == None
  {
    SweepKeepsLive(t, r.key, sweepAt);
    WriteKeepsConsistent(t, r, sweepAt, now, defaultTtl);
  }

  /** Deletes, pins and unpins: when they are refused, and which keys and owners they leave. */
  lemma OthersAnswer<D>(t: Tables<D>, key: string, owner: string, defaultTtl: Option<real>)
    requires Consistent(t)
    ensures var (after, reply) := Do(t, Delete(key), defaultTtl);
            if key in t.pins then (after, reply) == (t, Refused(Pinned))
            else reply == Nothing && after.data == t.data - {key} && after.pins == t.pins
    ensures var (after, reply) := Do(t, Pin(key, owner), defaultTtl);
            if owner == "" then (after, reply) == (t, Refused(EmptyOwner))
            else if key !in t.data then (after, reply) == (t, Refused(UnknownKey))
            else
              && after.pins == t.pins[key := OwnersOf(t, key) + {owner}] && after.data.Keys == t.data.Keys
              && reply == Snapshot(after.data[key]) && after.data[key].content == t.data[key].content
    ensures var (after, reply) := Do(t, Unpin(key, owner), defaultTtl);
            if key !in t.data then (after, reply) == (t, Refused(UnknownKey))
            else
              && OwnersOf(after, key) == OwnersOf(t, key) - {owner} && after.data.Keys == t.data.Keys
              && reply == Snapshot(after.data[key]) && after.data[key].content == t.data[key].content
  {
    DeleteAnswers(t, key, defaultTtl);
    PinAnswers(t, key, owner, defaultTtl);
    UnpinAnswers(t, key, owner, defaultTtl);
  }

  lemma DeleteAnswers<D>(t: Tables<D>, key: string, defaultTtl: Option<real>)
    requires Consistent(t)
    ensures var (after, reply) := Do(t, Delete(key), defaultTtl);
            if key in t.pins then (after, reply) == (t, Refused(Pinned))
            else reply == Nothing && after.data == t.data - {key} && after.pins == t.pins
  {}

  lemma PinAnswers<D>(t: Tables<D>, key: string, owner: string, defaultTtl: Option<real>)
    requires Consistent(t)
    ensures var (after, reply) := Do(t, Pin(key, owner), defaultTtl);
            if owner == "" then (after, reply) == (t, Refused(EmptyOwner))
            else if key !in t.data then (after, reply) == (t, Refused(UnknownKey))
            else
              && after.pins == t.pins[key := OwnersOf(t, key) + {owner}] && after.data.Keys == t.data.Keys
              && reply == Snapshot(after.data[key]) && after.data[key].content == t.data[key].content
  {}

  lemma UnpinAnswers<D>(t: Tables<D>, key: string, owner: string, defaultTtl: Option<real>)
    requires Consistent(t)
    ensures var (after, reply) := Do(t, Unpin(key, owner), defaultTtl);
            if key !in t.data then (after, reply) == (t, Refused(UnknownKey))
            else
              && OwnersOf(after, key) == OwnersOf(t, key) - {owner} && after.data.Keys == t.data.Keys
              && reply == Snapshot(after.data[key]) && after.data[key].content == t.data[key].content
  {}

  // ---- Whole runs ------------------------------------------------------------------------

  function Replies<D>(t: Tables<D>, ops: seq<Op<D>>, defaultTtl: Option<real>): seq<Reply<D>>
    decreases |ops|
  {
    if ops == [] then []
    else
      var (after, reply) := Do(t, ops[0], defaultTtl);
      [reply] + Replies(after, ops[1..], defaultTtl)
  }

  function SimpleRun<D>(a: Simple<D>, ops: seq<Op<D>>, defaultTtl: Option<real>): Simple<D>
    decreases |ops|
  {
    if ops == [] then a else SimpleRun(SimpleDo(a, ops[0], defaultTtl).0, ops[1..], defaultTtl)
  }

  function SimpleReplies<D>(a: Simple<D>, ops: seq<Op<D>>, defaultTtl: Option<real>): seq<Reply<D>>
    decreases |ops|
  {
    if ops == [] then []
    else
      var (after, reply) := SimpleDo(a, ops[0], defaultTtl);
      [reply] + SimpleReplies(after, ops[1..], defaultTtl)
  }

  /** No operation of the run unpins a key that has a deadline and no owner, judged by the simple store. */
  predicate NeverStray<D>(a: Simple<D>, ops: seq<Op<D>>, defaultTtl: Option<real>)
    decreases |ops|
  {
    ops == [] || (
      && !(ops[0].Unpin? && ops[0].key in a && a[ops[0].key].owners == {} && a[ops[0].key].deadline.Some?)
      && NeverStray(SimpleDo(a, ops[0], defaultTtl).0, ops[1..], defaultTtl))
  }

  ghost predicate StaysCoherent<D>(t: Tables<D>, ops: seq<Op<D>>, defaultTtl: Option<real>)
    decreases |ops|
  {
    Coherent(t) && (ops == [] || StaysCoherent(Do(t, ops[0], defaultTtl).0, ops[1..], defaultTtl))
  }

  /**
   Along any run without a stray unpin, every reply and the final state of the four dictionaries are
   those of the simple store; the records show the enforced expiry all along exactly in such runs.
   */
  lemma {:induction false} EveryRunRefinesSimpleStore<D>(
    t: Tables<D>, ops: seq<Op<D>>, defaultTtl: Option<real>)
    requires Consistent(t) && Coherent(t)
    ensures StaysCoherent(t, ops, defaultTtl) <==> NeverStray(Abstract(t), ops, defaultTtl)
    ensures NeverStray(Abstract(t), ops, defaultTtl) ==>
              && Abstract(Run(t, ops, defaultTtl)) == SimpleRun(Abstract(t), ops, defaultTtl)
              && Replies(t, ops, defaultTtl) == SimpleReplies(Abstract(t), ops, defaultTtl)
    decreases |ops|
  {
    if ops != [] {
      TablesRefineSimpleStore(t, ops[0], defaultTtl);
      StepKeepsConsistent(t, ops[0], defaultTtl);
      var next := Do(t, ops[0], defaultTtl).0;
      if Coherent(next) {
        EveryRunRefinesSimpleStore(next, ops[1..], defaultTtl);
      }
    }
  }

  function TenSecondWrite(meta: int, data: int): Op<int> {
    Write(WriteRequest("k", "v1", meta, Some(data), Some(10.0), false, None), 0.0, 0.0)
  }

  function StrayUnpin(): Op<int> {
    Unpin("k", "a")
  }

  function NoTables(): (t: Tables<int>)
    ensures Consistent(t) && Coherent(t)
  {
    Tables(map[], map[], map[], map[])
  }

  /**
   A snapshot written to live for ten seconds, then an unpin by somebody who never pinned it: the
   reply shows no expiry, yet the snapshot is gone at second twenty.
   */
  lemma StrayUnpinHidesExpiry(meta: int, data: int)
    ensures var written := Do(NoTables(), TenSecondWrite(meta, data), None).0;
            var (unpinned, shown) := Do(written, StrayUnpin(), None);
            && IsStrayUnpin(written, StrayUnpin())
            && shown.Snapshot? && shown.record.expiresAt == None
            && unpinned.expiresAt == map["k" := 10.0] && unpinned.pins == map[]
            && unpinned.data == map["k" := shown.record]
            && Do(unpinned, Read("k", 20.0), None).1 == Nothing
  {
    var written := Do(NoTables(), TenSecondWrite(meta, data), None).0;
    assert written.data.Keys == {"k"} && written.expiresAt == map["k" := 10.0] && written.pins == map[];
    var (unpinned, shown) := Do(written, StrayUnpin(), None);
    assert unpinned.expiresAt == map["k" := 10.0];
    assert unpinned.data == map["k" := shown.record];
  }

  /** Pinned and unpinned once more the same snapshot never expires; the simple store would drop it. */
  lemma StrayUnpinForgetsExpiry(meta: int, data: int, now: real)
    requires now >= 10.0
    ensures var written := Do(NoTables(), TenSecondWrite(meta, data), None).0;
            var unpinned := Do(written, StrayUnpin(), None).0;
            var pinned := Do(unpinned, Pin("k", "a"), None).0;
            Do(Do(pinned, StrayUnpin(), None).0, Read("k", now), None).1.Snapshot?
    ensures var written := SimpleDo(Abstract(NoTables()), TenSecondWrite(meta, data), None).0;
            var unpinned := SimpleDo(written, StrayUnpin(), None).0;
            var pinned := SimpleDo(unpinned, Pin("k", "a"), None).0;
            SimpleDo(SimpleDo(pinned, StrayUnpin(), None).0, Read("k", now), None).1 == Nothing
  {
    StrayUnpinHidesExpiry(meta, data);
    var unpinned := Do(Do(NoTables(), TenSecondWrite(meta, data), None).0, StrayUnpin(), None).0;
    var pinned := Do(unpinned, Pin("k", "a"), None).0;
    assert pinned.restore["k"] == None && pinned.expiresAt == map[] && pinned.pins["k"] == {"a"};
    assert {"a"} - {"a"} == {};
    assert Do(pinned, StrayUnpin(), None).0.expiresAt == map[];
    SimpleStrayIsHarmless(meta, data);
  }

  lemma SimpleStrayIsHarmless(meta: int, data: int)
    ensures var written := SimpleDo(Abstract(NoTables()), TenSecondWrite(meta, data), None).0;
            var unpinned := SimpleDo(written, StrayUnpin(), None).0;
            var pinned := SimpleDo(unpinned, Pin("k", "a"), None).0;
            && unpinned == written && SimpleDo(pinned, StrayUnpin(), None).0 == written
            && "k" in written && written["k"].owners == {} && written["k"].deadline == Some(10.0)
  {
    var written := SimpleDo(Abstract(NoTables()), TenSecondWrite(meta, data), None).0;
    assert written["k"].owners == {} && written["k"].deadline == Some(10.0);
    assert SimpleDo(written, Pin("k", "a"), None).0["k"].owners == {"a"};
    assert {"a"} - {"a"} == {};
  }
}
