/**
 Transport-safe values, the two conversions between their mutable form (lists) and their immutable
 form (tuples), and what JSON text makes of them.  Python's `==` on mappings and sequences
 distinguishes a list from a tuple, compares mappings by contents whatever their concrete class, and
 takes a NaN member as equal only to the same object; structural equality of `Value` does the same.
 */
module Wire {
  /** Which object a NaN is: one that exists before the running call, or one that the call decodes. */
  datatype NanObject = Held(id: nat) | Loaded

  datatype Value =
    | Null
    | Flag(flag: bool)
    | Number(number: real)
    | NaN(which: NanObject)
    | Text(text: string)
    | List(items: seq<Value>)
    | Tuple(items: seq<Value>)
    | Mapping(entries: Fields)

  type Fields = map<string, Value>

  function Freeze(v: Value): (f: Value)
    ensures Frozen(f)
  {
    match v
    case List(items) => Tuple(seq(|items|, i requires 0 <= i < |items| => Freeze(items[i])))
    case Tuple(items) => Tuple(seq(|items|, i requires 0 <= i < |items| => Freeze(items[i])))
    case Mapping(entries) => Mapping(map k | k in entries :: Freeze(entries[k]))
    case _ => v
  }

  // Thawing does not look inside a list: only tuples and mappings are rebuilt.
  function Thaw(v: Value): Value {
    match v
    case Tuple(items) => List(seq(|items|, i requires 0 <= i < |items| => Thaw(items[i])))
    case Mapping(entries) => Mapping(map k | k in entries :: Thaw(entries[k]))
    case _ => v
  }

  predicate Frozen(v: Value) {
    match v
    case List(_) => false
    case Tuple(items) => forall i | 0 <= i < |items| :: Frozen(items[i])
    case Mapping(entries) => forall k | k in entries :: Frozen(entries[k])
    case _ => true
  }

  /** No list and no tuple at any depth. */
  predicate SequenceFree(v: Value) {
    match v
    case List(_) => false
    case Tuple(_) => false
    case Mapping(entries) => forall k | k in entries :: SequenceFree(entries[k])
    case _ => true
  }

  function FreezeFields(fields: Fields): Fields {
    map k | k in fields :: Freeze(fields[k])
  }

  function ThawFields(fields: Fields): Fields {
    map k | k in fields :: Thaw(fields[k])
  }

  predicate FrozenFields(fields: Fields) {
    forall k | k in fields :: Frozen(fields[k])
  }

  predicate SequenceFreeFields(fields: Fields) {
    forall k | k in fields :: SequenceFree(fields[k])
  }

  lemma {:induction false} FreezeAfterThaw(v: Value)
    requires Frozen(v)
    ensures Freeze(Thaw(v)) == v
  {
    match v
    case Tuple(items) =>
      forall i | 0 <= i < |items| ensures Freeze(Thaw(items[i])) == items[i] {
        FreezeAfterThaw(items[i]);
      }
    case Mapping(entries) =>
      forall k | k in entries ensures Freeze(Thaw(entries[k])) == entries[k] {
        FreezeAfterThaw(entries[k]);
      }
    case _ =>
  }

  /** A frozen value equals its thawed form only when no sequence occurs in it, empty ones included. */
  lemma {:induction false} ThawIsIdentityIff(v: Value)
    requires Frozen(v)
    ensures Thaw(v) == v <==> SequenceFree(v)
  {
    match v
    case Mapping(entries) =>
      forall k | k in entries ensures Thaw(entries[k]) == entries[k] <==> SequenceFree(entries[k]) {
        ThawIsIdentityIff(entries[k]);
      }
      if Thaw(v) == v {
        forall k | k in entries ensures SequenceFree(entries[k]) {
          assert Thaw(v).entries[k] == Thaw(entries[k]);
        }
      }
    case _ =>
  }

  lemma FreezeAfterThawFields(fields: Fields)
    requires FrozenFields(fields)
    ensures FreezeFields(ThawFields(fields)) == fields
  {
    forall k | k in fields ensures Freeze(Thaw(fields[k])) == fields[k] {
      FreezeAfterThaw(fields[k]);
    }
  }

  lemma FreezeFrozen(v: Value)
    requires Frozen(v)
    ensures Freeze(v) == v
  {
    match v
    case Tuple(items) =>
      forall i | 0 <= i < |items| ensures Freeze(items[i]) == items[i] {
        FreezeFrozen(items[i]);
      }
    case Mapping(entries) =>
      forall k | k in entries ensures Freeze(entries[k]) == entries[k] {
        FreezeFrozen(entries[k]);
      }
    case _ =>
  }

  lemma FreezeFrozenFields(fields: Fields)
    requires FrozenFields(fields)
    ensures FreezeFields(fields) == fields
  {
    forall k | k in fields ensures Freeze(fields[k]) == fields[k] {
      FreezeFrozen(fields[k]);
    }
  }

  lemma ThawFieldsIsIdentityIff(fields: Fields)
    requires FrozenFields(fields)
    ensures ThawFields(fields) == fields <==> SequenceFreeFields(fields)
  {
    forall k | k in fields ensures Thaw(fields[k]) == fields[k] <==> SequenceFree(fields[k]) {
      ThawIsIdentityIff(fields[k]);
    }
    if ThawFields(fields) == fields {
      forall k | k in fields ensures SequenceFree(fields[k]) {
        assert ThawFields(fields)[k] == Thaw(fields[k]);
      }
    }
  }

  // ---- JSON text -------------------------------------------------------------------------

  /** The value that comes back from JSON text: each NaN is a new object. */
  function Reload(v: Value): Value {
    match v
    case NaN(_) => NaN(Loaded)
    case List(items) => List(seq(|items|, i requires 0 <= i < |items| => Reload(items[i])))
    case Tuple(items) => Tuple(seq(|items|, i requires 0 <= i < |items| => Reload(items[i])))
    case Mapping(entries) => Mapping(map k | k in entries :: Reload(entries[k]))
    case _ => v
  }

  function ReloadFields(fields: Fields): Fields {
    map k | k in fields :: Reload(fields[k])
  }

  predicate NanFree(v: Value) {
    match v
    case NaN(_) => false
    case List(items) => forall i | 0 <= i < |items| :: NanFree(items[i])
    case Tuple(items) => forall i | 0 <= i < |items| :: NanFree(items[i])
    case Mapping(entries) => forall k | k in entries :: NanFree(entries[k])
    case _ => true
  }

  predicate NanFreeFields(fields: Fields) {
    forall k | k in fields :: NanFree(fields[k])
  }

  /** No NaN of the value was decoded by the running call. */
  predicate IsHeld(v: Value) {
    match v
    case NaN(which) => which.Held?
    case List(items) => forall i | 0 <= i < |items| :: IsHeld(items[i])
    case Tuple(items) => forall i | 0 <= i < |items| :: IsHeld(items[i])
    case Mapping(entries) => forall k | k in entries :: IsHeld(entries[k])
    case _ => true
  }

  predicate HeldFields(fields: Fields) {
    forall k | k in fields :: IsHeld(fields[k])
  }

  lemma {:induction false} ReloadTwice(v: Value)
    ensures Reload(Reload(v)) == Reload(v)
  {
    match v
    case List(items) =>
      forall i | 0 <= i < |items| ensures Reload(Reload(items[i])) == Reload(items[i]) {
        ReloadTwice(items[i]);
      }
    case Tuple(items) =>
      forall i | 0 <= i < |items| ensures Reload(Reload(items[i])) == Reload(items[i]) {
        ReloadTwice(items[i]);
      }
    case Mapping(entries) =>
      forall k | k in entries ensures Reload(Reload(entries[k])) == Reload(entries[k]) {
        ReloadTwice(entries[k]);
      }
    case _ =>
  }

  lemma {:induction false} ReloadKeepsFrozen(v: Value)
    requires Frozen(v)
    ensures Frozen(Reload(v))
  {
    match v
    case Tuple(items) =>
      forall i | 0 <= i < |items| ensures Frozen(Reload(items[i])) {
        ReloadKeepsFrozen(items[i]);
      }
    case Mapping(entries) =>
      forall k | k in entries ensures Frozen(Reload(entries[k])) {
        ReloadKeepsFrozen(entries[k]);
      }
    case _ =>
  }

  lemma {:induction false} ThawOfReload(v: Value)
    ensures Thaw(Reload(v)) == Reload(Thaw(v))
  {
    match v
    case Tuple(items) =>
      forall i | 0 <= i < |items| ensures Thaw(Reload(items[i])) == Reload(Thaw(items[i])) {
        ThawOfReload(items[i]);
      }
    case Mapping(entries) =>
      forall k | k in entries ensures Thaw(Reload(entries[k])) == Reload(Thaw(entries[k])) {
        ThawOfReload(entries[k]);
      }
    case _ =>
  }

  /** Whatever its NaN objects, a value comes back unchanged exactly when it holds no NaN. */
  lemma {:induction false} ReloadIsIdentityIff(v: Value)
    requires IsHeld(v)
    ensures Reload(v) == v <==> NanFree(v)
  {
    match v
    case List(items) =>
      forall i | 0 <= i < |items| ensures Reload(items[i]) == items[i] <==> NanFree(items[i]) {
        ReloadIsIdentityIff(items[i]);
      }
      ReloadedItems(v, Reload(v), items);
    case Tuple(items) =>
      forall i | 0 <= i < |items| ensures Reload(items[i]) == items[i] <==> NanFree(items[i]) {
        ReloadIsIdentityIff(items[i]);
      }
      ReloadedItems(v, Reload(v), items);
    case Mapping(entries) =>
      forall k | k in entries ensures Reload(entries[k]) == entries[k] <==> NanFree(entries[k]) {
        ReloadIsIdentityIff(entries[k]);
      }
      if Reload(v) == v {
        forall k | k in entries ensures Reload(entries[k]) == entries[k] {
          assert Reload(v).entries[k] == Reload(entries[k]);
        }
      }
    case _ =>
  }

  lemma ReloadedItems(v: Value, reloaded: Value, items: seq<Value>)
    requires v == List(items) || v == Tuple(items)
    requires reloaded == Reload(v)
    ensures reloaded == v <==> forall i | 0 <= i < |items| :: Reload(items[i]) == items[i]
  {
    if reloaded == v {
      forall i | 0 <= i < |items| ensures Reload(items[i]) == items[i] {
        assert reloaded.items[i] == Reload(items[i]);
      }
    }
  }

  /** What comes back from the text equals the thawed value exactly without a sequence and without a NaN. */
  lemma {:induction false} ReloadIsThawIff(v: Value)
    requires Frozen(v) && IsHeld(v)
    ensures Reload(v) == Thaw(v) <==> SequenceFree(v) && NanFree(v)
  {
    match v
    case Mapping(entries) =>
      forall k | k in entries
        ensures Reload(entries[k]) == Thaw(entries[k]) <==> SequenceFree(entries[k]) && NanFree(entries[k])
      {
        ReloadIsThawIff(entries[k]);
      }
      SameFieldsIff(entries, ReloadFields(entries), ThawFields(entries));
    case _ =>
  }

  lemma SameFieldsIff(fields: Fields, reloaded: Fields, thawed: Fields)
    requires reloaded == ReloadFields(fields) && thawed == ThawFields(fields)
    ensures reloaded == thawed <==> forall k | k in fields :: Reload(fields[k]) == Thaw(fields[k])
  {
    if reloaded == thawed {
      forall k | k in fields ensures Reload(fields[k]) == Thaw(fields[k]) {
        assert reloaded[k] == thawed[k];
      }
    }
  }

  lemma {:induction false} FreezeKeepsNans(v: Value)
    ensures NanFree(Freeze(v)) <==> NanFree(v)
    ensures IsHeld(Freeze(v)) <==> IsHeld(v)
  {
    match v
    case List(items) =>
      forall i | 0 <= i < |items|
        ensures Freeze(v).items[i] == Freeze(items[i])
        ensures NanFree(Freeze(items[i])) <==> NanFree(items[i])
        ensures IsHeld(Freeze(items[i])) <==> IsHeld(items[i])
      {
        FreezeKeepsNans(items[i]);
      }
    case Tuple(items) =>
      forall i | 0 <= i < |items|
        ensures Freeze(v).items[i] == Freeze(items[i])
        ensures NanFree(Freeze(items[i])) <==> NanFree(items[i])
        ensures IsHeld(Freeze(items[i])) <==> IsHeld(items[i])
      {
        FreezeKeepsNans(items[i]);
      }
    case Mapping(entries) =>
      forall k | k in entries
        ensures Freeze(v).entries[k] == Freeze(entries[k])
        ensures NanFree(Freeze(entries[k])) <==> NanFree(entries[k])
        ensures IsHeld(Freeze(entries[k])) <==> IsHeld(entries[k])
      {
        FreezeKeepsNans(entries[k]);
      }
    case _ =>
  }

  lemma FreezeKeepsNanFields(fields: Fields)
    ensures NanFreeFields(FreezeFields(fields)) <==> NanFreeFields(fields)
    ensures HeldFields(FreezeFields(fields)) <==> HeldFields(fields)
  {
    forall k | k in fields
      ensures FreezeFields(fields)[k] == Freeze(fields[k])
      ensures NanFree(Freeze(fields[k])) <==> NanFree(fields[k])
      ensures IsHeld(Freeze(fields[k])) <==> IsHeld(fields[k])
    {
      FreezeKeepsNans(fields[k]);
    }
  }

  lemma ReloadFieldsTwice(fields: Fields)
    ensures ReloadFields(ReloadFields(fields)) == ReloadFields(fields)
  {
    forall k | k in fields ensures Reload(Reload(fields[k])) == Reload(fields[k]) {
      ReloadTwice(fields[k]);
    }
  }

  lemma ReloadedFieldsStayFrozen(fields: Fields)
    requires FrozenFields(fields)
    ensures FrozenFields(ReloadFields(fields))
  {
    forall k | k in fields ensures Frozen(Reload(fields[k])) {
      ReloadKeepsFrozen(fields[k]);
    }
  }

  lemma ThawOfReloadedFields(fields: Fields)
    ensures ThawFields(ReloadFields(fields)) == ReloadFields(ThawFields(fields))
  {
    forall k | k in fields ensures Thaw(Reload(fields[k])) == Reload(Thaw(fields[k])) {
      ThawOfReload(fields[k]);
    }
  }

  /** Reloading fields once is enough, keeps them frozen, and commutes with thawing. */
  lemma ReloadFieldsLaws(fields: Fields)
    ensures ReloadFields(ReloadFields(fields)) == ReloadFields(fields)
    ensures FrozenFields(fields) ==> FrozenFields(ReloadFields(fields))
    ensures ThawFields(ReloadFields(fields)) == ReloadFields(ThawFields(fields))
  {
    ReloadFieldsTwice(fields);
    ThawOfReloadedFields(fields);
    if FrozenFields(fields) {
      ReloadedFieldsStayFrozen(fields);
    }
  }

  /** Thawing, writing as text, reading and freezing again changes the NaN objects only. */
  lemma FreezeOfReloadedFields(fields: Fields)
    requires FrozenFields(fields)
    ensures FreezeFields(ReloadFields(ThawFields(fields))) == ReloadFields(fields)
  {
    ReloadFieldsLaws(fields);
    FreezeAfterThawFields(ReloadFields(fields));
  }

  lemma ReloadFieldsIsIdentityIff(fields: Fields)
    requires HeldFields(fields)
    ensures ReloadFields(fields) == fields <==> NanFreeFields(fields)
  {
    forall k | k in fields ensures Reload(fields[k]) == fields[k] <==> NanFree(fields[k]) {
      ReloadIsIdentityIff(fields[k]);
    }
    if ReloadFields(fields) == fields {
      forall k | k in fields ensures Reload(fields[k]) == fields[k] {
        assert ReloadFields(fields)[k] == Reload(fields[k]);
      }
    }
  }

  lemma ReloadFieldsIsThawIff(fields: Fields)
    requires FrozenFields(fields) && HeldFields(fields)
    ensures ReloadFields(fields) == ThawFields(fields) <==> SequenceFreeFields(fields) && NanFreeFields(fields)
  {
    forall k | k in fields
      ensures Reload(fields[k]) == Thaw(fields[k]) <==> SequenceFree(fields[k]) && NanFree(fields[k])
    {
      ReloadIsThawIff(fields[k]);
    }
    SameFieldsIff(fields, ReloadFields(fields), ThawFields(fields));
  }
}
