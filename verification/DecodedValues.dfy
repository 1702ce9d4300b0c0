/** What the decoder can return for any text at all, also one that no encoder wrote. */
module DecodedValues {
  import opened Outcomes
  import opened Json
  import opened SafeCodec
  import opened EncodedForms
  import opened CodecRoundTrip
  import opened CodecLimits
  import opened RedisValueCodec

  /** A contiguous array of the base class, of plain elements, with as many bytes as its shape says. */
  predicate IsPlainArray(v: Value)
    requires v.VArray?
  {
    && v.contiguous && !v.subclass && v.dtype.detail.None? && !v.dtype.holdsObjects && v.dtype.itemSize > 0
    && (forall i | 0 <= i < |v.shape| :: v.shape[i] >= 0) && |v.data| == Product(v.shape) * v.dtype.itemSize
  }

  /**
   A value made of built-in classes throughout: plain arrays, immutable bytes, mappings with distinct
   hashable keys, sets with distinct hashable members, and protocol values over mappings.
   */
  predicate IsDecoded(v: Value)
    decreases v
  {
    match v
    case VNumpyScalar(_) => false
    case VForeign => false
    case VBytes(mutable, _) => !mutable
    case VArray(_, _, _, _, _) => IsPlainArray(v)
    case VProtocol(_, payload) => payload.VMapping? && IsDecoded(payload)
    case VMapping(items) =>
      DistinctKeys(items) && forall i | 0 <= i < |items| ::
        assert items[i] < v; IsDecoded(items[i].key) && IsDecoded(items[i].value) && Hashable(items[i].key)
    case VCollection(kind, typeName, elements) =>
      && typeName == KindName(kind) && (forall i | 0 <= i < |elements| :: IsDecoded(elements[i]))
      && (kind.Set? || kind.FrozenSet? ==> AllHashable(elements) && Distinct(elements))
    case _ => true
  }

  predicate IsDecodedPair(p: Pair) {
    IsDecoded(p.key) && IsDecoded(p.value) && Hashable(p.key)
  }

  // ---- What the tags can say -------------------------------------------------------------

  predicate LeavesAreDecoded(w: Wire)
    decreases w, 1
  {
    match w
    case Leaf(value) => value.Some? ==> IsDecoded(value.value)
    case ComplexParts(re, im) => LeavesAreDecoded(re) && LeavesAreDecoded(im)
    case ProtocolPayload(_, payload) => LeavesAreDecoded(payload)
    case MappingItems(entries) => forall i | 0 <= i < |entries| :: EntryIsDecoded(entries[i])
    case CollectionItems(_, elements) => forall i | 0 <= i < |elements| :: LeavesAreDecoded(elements[i])
  }

  predicate EntryIsDecoded(e: Entry)
    decreases e, 2
  {
    e.Entry? ==> LeavesAreDecoded(e.key) && LeavesAreDecoded(e.value)
  }

  lemma {:induction false} ParsedLeaves(j: Json)
    ensures LeavesAreDecoded(Parse(j))
    decreases j, 1
  {
    if j.JObject? {
      match TagOf(j.members)
      case ArrayTag => ParsedArray(j.members);
      case ComplexTag =>
        ParsedMember(j.members, "real");
        ParsedMember(j.members, "imag");
      case ProtocolTag(_) => ParsedMember(j.members, "payload");
      case MappingTag => ParsedItems(j.members);
      case CollectionTag(_) => ParsedItems(j.members);
      case _ =>
    }
  }

  lemma ParsedArray(members: seq<Member>)
    ensures ArrayOf(members).Some? ==> ArrayOf(members).value.VArray? && IsPlainArray(ArrayOf(members).value)
  {
  }

  lemma {:induction false} ParsedMember(members: seq<Member>, name: string)
    ensures Lookup(members, name).Some? ==> LeavesAreDecoded(Parse(Lookup(members, name).value))
    decreases members, 0
  {
    if members != [] {
      if members[|members| - 1].name == name {
        ParsedLeaves(members[|members| - 1].value);
      } else {
        ParsedMember(members[..|members| - 1], name);
      }
    }
  }

  /** The items of a container, whichever way they are read. */
  lemma {:induction false} ParsedItems(members: seq<Member>)
    ensures var found := Lookup(members, "items");
            found.Some? && found.value.JArray? ==>
              && (forall w <- ParseAll(found.value.items) :: LeavesAreDecoded(w))
              && (forall e <- ParsePairs(found.value.items) :: EntryIsDecoded(e))
    decreases members, 0
  {
    if members != [] {
      var last := members[|members| - 1];
      if last.name != "items" {
        ParsedItems(members[..|members| - 1]);
      } else if last.value.JArray? {
        ParsedElements(last.value.items);
        ParsedEntries(last.value.items);
      }
    }
  }

  lemma {:induction false} ParsedElements(js: seq<Json>)
    ensures forall w <- ParseAll(js) :: LeavesAreDecoded(w)
    decreases js, 0
  {
    if js != [] {
      ParsedElements(js[..|js| - 1]);
      ParsedLeaves(js[|js| - 1]);
    }
  }

  lemma {:induction false} ParsedEntries(js: seq<Json>)
    ensures forall e <- ParsePairs(js) :: EntryIsDecoded(e)
    decreases js, 0
  {
    if js != [] {
      ParsedEntries(js[..|js| - 1]);
      var last := js[|js| - 1];
      if IsPair(last) {
        ParsedLeaves(last.items[0]);
        ParsedLeaves(last.items[1]);
      }
    }
  }

  // ---- What a meaning can be -------------------------------------------------------------

  lemma {:induction false} MeaningIsDecoded(w: Wire)
    requires LeavesAreDecoded(w) && Meaning(w).Some?
    ensures IsDecoded(Meaning(w).value)
    decreases w, 1
  {
    match w
    case Leaf(_) =>
    case ComplexParts(_, _) =>
    case ProtocolPayload(_, payload) => MeaningIsDecoded(payload);
    case MappingItems(entries) =>
      PairsAreDecoded(entries);
      InsertedAreDecoded(MeaningPairs(entries).value);
      InsertedKeysAreDistinct(MeaningPairs(entries).value);
    case CollectionItems(kind, elements) =>
      ElementsAreDecoded(elements);
      var vs := MeaningAll(elements).value;
      UniqueIsDistinct(vs);
      forall i | 0 <= i < |Unique(vs)|
        ensures IsDecoded(Unique(vs)[i]) && (AllHashable(vs) ==> Hashable(Unique(vs)[i]))
      {
        UniqueHolds(vs, Unique(vs)[i]);
      }
  }

  lemma {:induction false} ElementsAreDecoded(ws: seq<Wire>)
    requires (forall i | 0 <= i < |ws| :: LeavesAreDecoded(ws[i])) && MeaningAll(ws).Some?
    ensures forall v <- MeaningAll(ws).value :: IsDecoded(v)
    decreases ws, 0
  {
    if ws != [] {
      ElementsAreDecoded(ws[..|ws| - 1]);
      MeaningIsDecoded(ws[|ws| - 1]);
    }
  }

  lemma {:induction false} PairsAreDecoded(es: seq<Entry>)
    requires (forall i | 0 <= i < |es| :: EntryIsDecoded(es[i])) && MeaningPairs(es).Some?
    ensures forall p <- MeaningPairs(es).value :: IsDecodedPair(p)
    decreases es, 0
  {
    if es != [] {
      PairsAreDecoded(es[..|es| - 1]);
      var last := es[|es| - 1];
      assert last.key < last && last.value < last;
      MeaningIsDecoded(last.key);
      MeaningIsDecoded(last.value);
    }
  }

  lemma InsertedAreDecoded(ps: seq<Pair>)
    requires forall p <- ps :: IsDecodedPair(p)
    ensures forall i | 0 <= i < |InsertAll(ps)| :: IsDecodedPair(InsertAll(ps)[i])
  {
    forall i | 0 <= i < |InsertAll(ps)| ensures InsertAll(ps)[i] in ps {
      InsertedHolds(ps, InsertAll(ps)[i]);
    }
  }

  // ---- Decoded values are normal ---------------------------------------------------------

  /** No array without dimensions anywhere. */
  predicate HasDimensions(v: Value)
    decreases v
  {
    match v
    case VNumpyScalar(item) => HasDimensions(item)
    case VArray(_, shape, _, _, _) => shape != []
    case VProtocol(_, payload) => HasDimensions(payload)
    case VMapping(items) =>
      forall i | 0 <= i < |items| :: assert items[i] < v; HasDimensions(items[i].key) && HasDimensions(items[i].value)
    case VCollection(_, _, elements) => forall i | 0 <= i < |elements| :: HasDimensions(elements[i])
    case _ => true
  }

  predicate IsFixed(v: Value) {
    Normal(v) == v && Supported(v) && ArraysFit(v) && (HasDimensions(v) ==> Survives(v))
  }

  lemma {:induction false} DecodedIsFixed(v: Value)
    requires IsDecoded(v)
    ensures IsFixed(v)
    decreases v
  {
    match v
    case VProtocol(_, payload) => DecodedIsFixed(payload);
    case VMapping(items) =>
      forall i | 0 <= i < |items| ensures IsFixed(items[i].key) && IsFixed(items[i].value) && Hashable(items[i].key) {
        assert items[i] < v;
        DecodedIsFixed(items[i].key);
        DecodedIsFixed(items[i].value);
      }
      FixedPairs(items);
      forall i | 0 <= i < |items| && HasDimensions(v)
        ensures HasDimensions(items[i].key) && HasDimensions(items[i].value)
      {
      }
    case VCollection(_, _, elements) =>
      forall i | 0 <= i < |elements| ensures IsFixed(elements[i]) {
        DecodedIsFixed(elements[i]);
      }
      FixedElements(elements);
    case _ =>
  }

  lemma {:induction false} FixedElements(vs: seq<Value>)
    requires forall i | 0 <= i < |vs| :: IsFixed(vs[i])
    ensures NormalAll(vs) == vs && SupportedAll(vs) && ArraysFitAll(vs)
    ensures (forall i | 0 <= i < |vs| :: HasDimensions(vs[i])) ==> SurvivesAll(vs)
  {
    if vs != [] {
      FixedElements(vs[..|vs| - 1]);
      assert vs == vs[..|vs| - 1] + [vs[|vs| - 1]];
    }
  }

  lemma {:induction false} FixedPairs(ps: seq<Pair>)
    requires forall i | 0 <= i < |ps| :: IsFixed(ps[i].key) && IsFixed(ps[i].value) && Hashable(ps[i].key)
    ensures NormalPairs(ps) == ps && SupportedPairs(ps) && ArraysFitPairs(ps)
    ensures (forall i | 0 <= i < |ps| :: HasDimensions(ps[i].key) && HasDimensions(ps[i].value)) ==> SurvivesPairs(ps)
  {
    if ps != [] {
      FixedPairs(ps[..|ps| - 1]);
      assert ps == ps[..|ps| - 1] + [ps[|ps| - 1]];
      assert ps[|ps| - 1] == Pair(ps[|ps| - 1].key, ps[|ps| - 1].value);
    }
  }

  // ---- Main results ----------------------------------------------------------------------

  /** Whatever the text, a loaded value is made of built-in classes, plain arrays and hashable keys only. */
  lemma LoadedIsDecoded(c: Codec, raw: Json)
    requires Loaded(c, raw).Some?
    ensures IsDecoded(Loaded(c, raw).value)
  {
    ParsedLeaves(PayloadOf(c, raw).value);
    MeaningIsDecoded(Parse(PayloadOf(c, raw).value));
  }

  /**
   Whatever the text, a loaded value that is dumped again loads as itself, unless an array of it has no
   dimensions or it has more nodes than the second codec allows.
   */
  lemma LoadedIsStable(c: Codec, raw: Json, again: Codec)
    requires Loaded(c, raw).Some?
    requires var v := Loaded(c, raw).value;
             HasDimensions(v) && Dumps(again, v).Ok? && NodeCount(v) <= again.maxNodes
    ensures var v := Loaded(c, raw).value; Loaded(again, Dumps(again, v).value) == Some(v)
  {
    LoadedIsDecoded(c, raw);
    DecodedIsFixed(Loaded(c, raw).value);
    LoadsInvertsDumpsIff(again, Loaded(c, raw).value);
  }
}
