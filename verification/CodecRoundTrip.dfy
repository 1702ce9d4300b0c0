/** What survives encoding and decoding, and what the two sets of limits promise about each other. */
module CodecRoundTrip {
  import opened Outcomes
  import opened Json
  import opened SafeCodec
  import opened EncodedForms

  // ---- The normal form -------------------------------------------------------------------

  /** A value with NumPy scalars unboxed, buffers as bytes, arrays contiguous and collections of built-in classes. */
  function Normal(v: Value): Value
    decreases v, 1
  {
    match v
    case VNumpyScalar(item) => Normal(item)
    case VBytes(_, data) => VBytes(false, data)
    case VArray(dtype, shape, data, _, subclass) => VArray(dtype, shape, data, true, subclass)
    case VProtocol(protocol, payload) => VProtocol(protocol, Normal(payload))
    case VMapping(items) => VMapping(NormalPairs(items))
    case VCollection(kind, _, elements) => VCollection(kind, KindName(kind), NormalAll(elements))
    case _ => v
  }

  function NormalAll(vs: seq<Value>): (r: seq<Value>)
    ensures |r| == |vs|
    decreases vs, 0
  {
    if vs == [] then [] else NormalAll(vs[..|vs| - 1]) + [Normal(vs[|vs| - 1])]
  }

  function NormalPairs(ps: seq<Pair>): (r: seq<Pair>)
    ensures |r| == |ps|
    decreases ps, 0
  {
    if ps == [] then []
    else
      var last := ps[|ps| - 1];
      assert last.key < last && last.value < last;
      NormalPairs(ps[..|ps| - 1]) + [Pair(Normal(last.key), Normal(last.value))]
  }

  predicate Distinct<T(==)>(xs: seq<T>) {
    forall i, k | 0 <= i < k < |xs| :: xs[i] != xs[k]
  }

  predicate DistinctKeys(ps: seq<Pair>) {
    forall i, k | 0 <= i < k < |ps| :: ps[i].key != ps[k].key
  }

  /**
   Everything the wire format keeps: collections of the built-in classes, arrays of the base class
   with at least one dimension and an element type that its name denotes, mapping keys and set members
   that stay hashable and distinct, and protocol payloads that are mappings.
   */
  predicate Survives(v: Value)
    decreases v, 1
  {
    match v
    case VNumpyScalar(item) => Survives(item)
    case VArray(dtype, shape, _, _, subclass) =>
      shape != [] && dtype.detail.None? && dtype.itemSize > 0 && !subclass
    case VProtocol(_, payload) => Normal(payload).VMapping? && Survives(payload)
    case VMapping(items) => SurvivesPairs(items) && DistinctKeys(NormalPairs(items))
    case VCollection(kind, typeName, elements) =>
      && typeName == KindName(kind) && SurvivesAll(elements)
      && (kind.Set? || kind.FrozenSet? ==> AllHashable(NormalAll(elements)) && Distinct(NormalAll(elements)))
    case _ => true
  }

  predicate SurvivesAll(vs: seq<Value>)
    decreases vs, 0
  {
    vs == [] || (SurvivesAll(vs[..|vs| - 1]) && Survives(vs[|vs| - 1]))
  }

  predicate SurvivesPairs(ps: seq<Pair>)
    decreases ps, 0
  {
    ps == [] ||
    var last := ps[|ps| - 1];
    assert last.key < last && last.value < last;
    SurvivesPairs(ps[..|ps| - 1]) && Survives(last.key) && Survives(last.value) && Hashable(Normal(last.key))
  }

  /** Every collection is of the built-in class of its kind, not of a subclass. */
  predicate BuiltIn(v: Value)
    decreases v, 1
  {
    match v
    case VNumpyScalar(item) => BuiltIn(item)
    case VProtocol(_, payload) => BuiltIn(payload)
    case VMapping(items) => BuiltInPairs(items)
    case VCollection(kind, typeName, elements) => typeName == KindName(kind) && BuiltInAll(elements)
    case _ => true
  }

  predicate BuiltInAll(vs: seq<Value>)
    decreases vs, 0
  {
    vs == [] || (BuiltInAll(vs[..|vs| - 1]) && BuiltIn(vs[|vs| - 1]))
  }

  predicate BuiltInPairs(ps: seq<Pair>)
    decreases ps, 0
  {
    ps == [] ||
    var last := ps[|ps| - 1];
    assert last.key < last && last.value < last;
    BuiltInPairs(ps[..|ps| - 1]) && BuiltIn(last.key) && BuiltIn(last.value)
  }

  lemma {:induction false} SurvivorIsBuiltIn(v: Value)
    requires Survives(v)
    ensures BuiltIn(v)
    decreases v, 1
  {
    match v
    case VNumpyScalar(item) => SurvivorIsBuiltIn(item);
    case VProtocol(_, payload) => SurvivorIsBuiltIn(payload);
    case VMapping(items) => SurvivingPairsAreBuiltIn(items);
    case VCollection(_, _, elements) => SurvivorsAreBuiltIn(elements);
    case _ =>
  }

  lemma {:induction false} SurvivorsAreBuiltIn(vs: seq<Value>)
    requires SurvivesAll(vs)
    ensures BuiltInAll(vs)
    decreases vs, 0
  {
    if vs != [] {
      SurvivorsAreBuiltIn(vs[..|vs| - 1]);
      SurvivorIsBuiltIn(vs[|vs| - 1]);
    }
  }

  lemma {:induction false} SurvivingPairsAreBuiltIn(ps: seq<Pair>)
    requires SurvivesPairs(ps)
    ensures BuiltInPairs(ps)
    decreases ps, 0
  {
    if ps != [] {
      var last := ps[|ps| - 1];
      assert last.key < last && last.value < last;
      SurvivingPairsAreBuiltIn(ps[..|ps| - 1]);
      SurvivorIsBuiltIn(last.key);
      SurvivorIsBuiltIn(last.value);
    }
  }

  /** Nothing of a foreign class and no array of objects. */
  predicate Supported(v: Value)
    decreases v, 1
  {
    match v
    case VForeign => false
    case VNumpyScalar(item) => Supported(item)
    case VArray(dtype, _, _, _, _) => !dtype.holdsObjects
    case VProtocol(_, payload) => Supported(payload)
    case VMapping(items) => SupportedPairs(items)
    case VCollection(_, _, elements) => SupportedAll(elements)
    case _ => true
  }

  predicate SupportedAll(vs: seq<Value>)
    decreases vs, 0
  {
    vs == [] || (SupportedAll(vs[..|vs| - 1]) && Supported(vs[|vs| - 1]))
  }

  predicate SupportedPairs(ps: seq<Pair>)
    decreases ps, 0
  {
    ps == [] ||
    var last := ps[|ps| - 1];
    assert last.key < last && last.value < last;
    SupportedPairs(ps[..|ps| - 1]) && Supported(last.key) && Supported(last.value)
  }

  // ---- Meaning after encoding ------------------------------------------------------------

  lemma {:induction false} DistinctKeysStay(ps: seq<Pair>)
    requires DistinctKeys(ps)
    ensures InsertAll(ps) == ps
  {
    if ps != [] {
      var init, last := ps[..|ps| - 1], ps[|ps| - 1];
      DistinctKeysStay(init);
      assert forall i | 0 <= i < |init| :: init[i].key != last.key;
      InsertFresh(init, last.key, last.value);
    }
  }

  lemma {:induction false} InsertFresh(ps: seq<Pair>, key: Value, value: Value)
    requires forall i | 0 <= i < |ps| :: ps[i].key != key
    ensures Insert(ps, key, value) == ps + [Pair(key, value)]
  {
    if ps != [] {
      InsertFresh(ps[1..], key, value);
    }
  }

  lemma {:induction false} InsertKeepsKeysDistinct(ps: seq<Pair>, key: Value, value: Value)
    requires DistinctKeys(ps)
    ensures DistinctKeys(Insert(ps, key, value))
    ensures forall p <- Insert(ps, key, value) :: p.key == key || exists q <- ps :: q.key == p.key
  {
    if ps != [] && ps[0].key != key {
      InsertKeepsKeysDistinct(ps[1..], key, value);
    }
  }

  /** A dictionary never holds a key twice. */
  lemma {:induction false} InsertedKeysAreDistinct(ps: seq<Pair>)
    ensures DistinctKeys(InsertAll(ps))
  {
    if ps != [] {
      InsertedKeysAreDistinct(ps[..|ps| - 1]);
      InsertKeepsKeysDistinct(InsertAll(ps[..|ps| - 1]), ps[|ps| - 1].key, ps[|ps| - 1].value);
    }
  }

  /** A dictionary holds the keys inserted into it, each with its last value. */
  lemma {:induction false} InsertedHolds(ps: seq<Pair>, p: Pair)
    ensures p in InsertAll(ps) <==>
            exists i | 0 <= i < |ps| :: ps[i] == p && forall j | i < j < |ps| :: ps[j].key != p.key
  {
    if ps != [] {
      var n := |ps| - 1;
      var init, last := ps[..n], ps[n];
      InsertedHolds(init, p);
      InsertedKeysAreDistinct(init);
      InsertHolds(InsertAll(init), last.key, last.value, p);
      if p in InsertAll(init) && p.key != last.key {
        var i :| 0 <= i < n && init[i] == p && forall j | i < j < n :: init[j].key != p.key;
        assert ps[i] == p && forall j | i < j < |ps| :: ps[j].key != p.key by {
          forall j | i < j < |ps| ensures ps[j].key != p.key {
            if j < n {
              assert ps[j] == init[j];
            }
          }
        }
      }
      if i: nat :| i < |ps| && ps[i] == p && forall j | i < j < |ps| :: ps[j].key != p.key {
        if i < n {
          assert init[i] == p && forall j | i < j < n :: init[j].key != p.key by {
            forall j | i < j < n ensures init[j].key != p.key {
              assert init[j] == ps[j];
            }
          }
          assert ps[n].key != p.key;
        }
      }
    }
  }

  lemma {:induction false} InsertHolds(items: seq<Pair>, key: Value, value: Value, p: Pair)
    requires DistinctKeys(items)
    ensures p in Insert(items, key, value) <==> p == Pair(key, value) || (p in items && p.key != key)
  {
    if items != [] {
      assert items == [items[0]] + items[1..];
      if items[0].key == key {
        assert forall k | 1 <= k < |items| :: items[k].key != key;
      } else {
        InsertHolds(items[1..], key, value, p);
      }
    }
  }

  /** A set holds the members it was built from. */
  lemma {:induction false} UniqueHolds(vs: seq<Value>, v: Value)
    ensures v in Unique(vs) <==> v in vs
  {
    if vs != [] {
      UniqueHolds(vs[..|vs| - 1], v);
      assert vs == vs[..|vs| - 1] + [vs[|vs| - 1]];
    }
  }

  lemma {:induction false} DistinctStay(vs: seq<Value>)
    requires Distinct(vs)
    ensures Unique(vs) == vs
  {
    if vs != [] {
      DistinctStay(vs[..|vs| - 1]);
    }
  }

  lemma {:induction false} UniqueIsDistinct(vs: seq<Value>)
    ensures Distinct(Unique(vs))
  {
    if vs != [] {
      UniqueIsDistinct(vs[..|vs| - 1]);
    }
  }

  lemma SnocInjective<T>(xs: seq<T>, x: T, ys: seq<T>, y: T)
    ensures xs + [x] == ys + [y] <==> xs == ys && x == y
  {
    if xs + [x] == ys + [y] {
      assert (xs + [x])[..|xs|] == (ys + [y])[..|ys|];
      assert (xs + [x])[|xs|] == (ys + [y])[|ys|];
    }
  }

  lemma MeaningAllStep(ws: seq<Wire>, w: Wire)
    ensures MeaningAll(ws + [w]) ==
              if MeaningAll(ws).Some? && Meaning(w).Some? then Some(MeaningAll(ws).value + [Meaning(w).value]) else None
  {
    assert (ws + [w])[..|ws|] == ws;
  }

  lemma MeaningPairsStep(es: seq<Entry>, e: Entry)
    ensures MeaningPairs(es + [e]) ==
              if MeaningPairs(es).Some? && MeaningEntry(e).Some?
              then Some(MeaningPairs(es).value + [MeaningEntry(e).value]) else None
  {
    assert (es + [e])[..|es|] == es;
  }

  /** Decoding a wired value gives its normal form exactly when the wire format keeps all of it. */
  lemma {:induction false} WiredMeaning(v: Value)
    requires Supported(v)
    ensures Meaning(Wired(v)) == Some(Normal(v)) <==> Survives(v)
    decreases v, 1
  {
    match v
    case VNumpyScalar(item) => WiredMeaning(item);
    case VProtocol(protocol, payload) =>
      WiredMeaning(payload);
      ProtocolMeaning(protocol, Wired(payload), Normal(payload));
    case VMapping(items) =>
      WiredPairsMeaning(items);
      MappingMeaning(WiredPairs(items), NormalPairs(items));
    case VCollection(kind, typeName, elements) =>
      if TagNamed(typeName) == CollectionTag(kind) {
        WiredAllMeaning(elements);
      }
      CollectionMeaning(kind, typeName, elements, WiredAll(elements));
    case _ =>
  }

  lemma ProtocolMeaning(protocol: Protocol, w: Wire, normal: Value)
    ensures Meaning(ProtocolPayload(protocol, w)) == Some(VProtocol(protocol, normal)) <==>
            Meaning(w) == Some(normal) && normal.VMapping?
  {
  }

  lemma MappingMeaning(es: seq<Entry>, normal: seq<Pair>)
    requires |es| == |normal|
    ensures Meaning(MappingItems(es)) == Some(VMapping(normal)) <==>
            MeaningPairs(es) == Some(normal) && DistinctKeys(normal)
  {
    if MeaningPairs(es).Some? {
      InsertAllMeaning(MeaningPairs(es).value, normal);
    }
  }

  /** Inserting pairs one by one gives a list of that length exactly if they are it, with distinct keys. */
  lemma InsertAllMeaning(ps: seq<Pair>, normal: seq<Pair>)
    requires |ps| == |normal|
    ensures InsertAll(ps) == normal <==> ps == normal && DistinctKeys(normal)
  {
    InsertedKeysAreDistinct(ps);
    if DistinctKeys(normal) {
      DistinctKeysStay(normal);
    }
  }

  /** Whether a collection of these members can be rebuilt without losing one. */
  predicate Rebuilds(kind: CollectionKind, members: seq<Value>) {
    kind.Set? || kind.FrozenSet? ==> AllHashable(members) && Distinct(members)
  }

  lemma CollectionOfMeaning(kind: CollectionKind, vs: seq<Value>, normal: seq<Value>)
    requires |vs| == |normal|
    ensures CollectionOf(kind, vs) == Some(VCollection(kind, KindName(kind), normal)) <==>
            vs == normal && Rebuilds(kind, normal)
  {
    if kind.Set? || kind.FrozenSet? {
      UniqueIsDistinct(vs);
      if Distinct(normal) {
        DistinctStay(normal);
      }
    }
  }

  lemma CollectionMeaning(kind: CollectionKind, typeName: string, elements: seq<Value>, ws: seq<Wire>)
    requires |ws| == |elements|
    ensures TagNamed(typeName) == CollectionTag(kind) <==> typeName == KindName(kind)
    ensures Meaning(Disguised(TagNamed(typeName), ws)) ==
            Some(VCollection(kind, KindName(kind), NormalAll(elements))) <==>
            && TagNamed(typeName) == CollectionTag(kind) && MeaningAll(ws) == Some(NormalAll(elements))
            && Rebuilds(kind, NormalAll(elements))
  {
    TagIsFound(CollectionTag(kind));
    if TagNamed(typeName) == CollectionTag(kind) {
      NameOfTag(typeName);
      if MeaningAll(ws).Some? {
        CollectionOfMeaning(kind, MeaningAll(ws).value, NormalAll(elements));
      }
    }
  }

  lemma {:induction false} WiredAllMeaning(vs: seq<Value>)
    requires SupportedAll(vs)
    ensures MeaningAll(WiredAll(vs)) == Some(NormalAll(vs)) <==> SurvivesAll(vs)
    decreases vs, 0
  {
    if vs != [] {
      WiredAllMeaning(vs[..|vs| - 1]);
      WiredMeaning(vs[|vs| - 1]);
      var ws, w := WiredAll(vs[..|vs| - 1]), Wired(vs[|vs| - 1]);
      MeaningAllStep(ws, w);
      if MeaningAll(ws).Some? && Meaning(w).Some? {
        SnocInjective(MeaningAll(ws).value, Meaning(w).value, NormalAll(vs[..|vs| - 1]), Normal(vs[|vs| - 1]));
      }
    }
  }

  lemma {:induction false} WiredPairsMeaning(ps: seq<Pair>)
    requires SupportedPairs(ps)
    ensures MeaningPairs(WiredPairs(ps)) == Some(NormalPairs(ps)) <==> SurvivesPairs(ps)
    decreases ps, 0
  {
    if ps != [] {
      var last := ps[|ps| - 1];
      assert last.key < last && last.value < last;
      WiredPairsMeaning(ps[..|ps| - 1]);
      WiredMeaning(last.key);
      WiredMeaning(last.value);
      PairMeaning(WiredPairs(ps[..|ps| - 1]), Wired(last.key), Wired(last.value), NormalPairs(ps[..|ps| - 1]),
                  Normal(last.key), Normal(last.value));
    }
  }

  lemma PairMeaning(es: seq<Entry>, wk: Wire, wv: Wire, normal: seq<Pair>, k: Value, v: Value)
    ensures MeaningPairs(es + [Entry(wk, wv)]) == Some(normal + [Pair(k, v)]) <==>
            MeaningPairs(es) == Some(normal) && Meaning(wk) == Some(k) && Meaning(wv) == Some(v) && Hashable(k)
  {
    var e := Entry(wk, wv);
    MeaningPairsStep(es, e);
    if MeaningPairs(es).Some? && MeaningEntry(e).Some? {
      SnocInjective(MeaningPairs(es).value, MeaningEntry(e).value, normal, Pair(k, v));
    }
  }
}
