/** Concrete values that the codec writes and then reads back changed, or refuses to read back. */
module CodecLosses {
  import opened Outcomes
  import opened Json
  import opened SafeCodec
  import opened EncodedForms
  import opened CodecRoundTrip
  import opened CodecLimits
  import opened RedisValueCodec

  const FLOAT64 := Dtype("<f8", 8, false, None)

  const PAIR_OF_FLOATS := Dtype("|V8", 8, false, Some("x:<f4,y:<f4"))

  lemma TaggedBytes(tag: string, m: Member)
    ensures JsonBytes(Tagged(tag, [m])) <= 200 + 6 * |tag| + 6 * |m.name| + JsonBytes(m.value)
  {
    var first := Member(VALUE_TAG, JString(Plain(tag)));
    MembersBytesSnoc([], first);
    MembersBytesSnoc([first], m);
    assert [] + [first] == [first];
    TextMemberBytes(VALUE_TAG, tag);
    ShortText(m.name);
  }

  lemma ArrayBytes(dtype: Dtype, shape: seq<int>, data: seq<int>)
    requires |dtype.name| <= 10 && |data| <= 100
    ensures JsonBytes(ArrayWire(dtype, shape, data)) <= 1000 + JsonBytes(ShapeWire(ContiguousShape(shape)))
  {
    var a, b := Member(VALUE_TAG, JString(Plain("ndarray"))), Member("data", JString(Base64Of(data)));
    var c := Member("dtype", JString(NameOf(Named(dtype))));
    var d := Member("shape", ShapeWire(ContiguousShape(shape)));
    FourMembersBytes(a, b, c, d);
    assert ArrayWire(dtype, shape, data) == JObject([a, b, c, d]);
    TextMemberBytes(VALUE_TAG, "ndarray");
    ShortText(b.name);
    ShortText(c.name);
    ShortText(d.name);
    ShortText(dtype.name);
  }

  lemma OneDimension()
    ensures JsonBytes(ShapeWire([1])) == 3 && Product([1]) == 1
  {
    assert ShapeWire([1]).items == [JInt(1)];
    assert [JInt(1)][..0] == [] && [1][..0] == [];
  }

  lemma SmallArrayIsDumped(dtype: Dtype, shape: seq<int>, data: seq<int>)
    requires |dtype.name| <= 10 && |data| == 8 && !dtype.holdsObjects && (shape == [] || shape == [1])
    ensures Dumps(DEFAULT, VArray(dtype, shape, data, true, false)) ==
              Ok(Envelope("generic", ArrayWire(dtype, shape, data)))
  {
    ArrayBytes(dtype, shape, data);
    OneDimension();
    SmallPayloadIsDumped(VArray(dtype, shape, data, true, false), ArrayWire(dtype, shape, data));
  }

  /** An array without dimensions is written like the array of its one element, and is read back as that. */
  lemma ZeroDimensionalArrayGainsADimension(data: seq<int>)
    requires |data| == 8
    ensures var v, w := VArray(FLOAT64, [], data, true, false), VArray(FLOAT64, [1], data, true, false);
            && Dumps(DEFAULT, v).Ok? && Dumps(DEFAULT, v) == Dumps(DEFAULT, w) && Normal(v) != Normal(w)
            && Loaded(DEFAULT, Dumps(DEFAULT, v).value) == Some(Normal(w))
  {
    assert |"<f8"| == 3;
    OneDimension();
    SmallArrayIsDumped(FLOAT64, [], data);
    SmallArrayIsDumped(FLOAT64, [1], data);
    LoadsInvertsDumpsIff(DEFAULT, VArray(FLOAT64, [1], data, true, false));
  }

  /** A structured array is read back as plain void bytes: the names and types of its fields are gone. */
  lemma StructuredArrayLosesItsFields(data: seq<int>)
    requires |data| == 8
    ensures var v := VArray(PAIR_OF_FLOATS, [1], data, true, false);
            var w := VArray(Named(PAIR_OF_FLOATS), [1], data, true, false);
            && Dumps(DEFAULT, v).Ok? && Dumps(DEFAULT, v) == Dumps(DEFAULT, w) && Normal(v) != Normal(w)
            && Loaded(DEFAULT, Dumps(DEFAULT, v).value) == Some(Normal(w))
  {
    assert |"|V8"| == 3;
    OneDimension();
    SmallArrayIsDumped(PAIR_OF_FLOATS, [1], data);
    SmallArrayIsDumped(Named(PAIR_OF_FLOATS), [1], data);
    LoadsInvertsDumpsIff(DEFAULT, VArray(Named(PAIR_OF_FLOATS), [1], data, true, false));
  }

  lemma EncodesMapping(items: seq<Pair>, depth: nat, maxDepth: nat)
    requires depth <= maxDepth && EncodePairs(items, depth + 1, maxDepth).Ok?
    ensures Encode(VMapping(items), depth, maxDepth) ==
              Ok(Tagged("mapping", [Member("items", JArray(EncodePairs(items, depth + 1, maxDepth).value))]))
  {
  }

  lemma EncodesNothing(name: string, maxDepth: nat)
    ensures Encode(VCollection(Tuple, name, []), 0, maxDepth) == Ok(Tagged(name, [Member("items", JArray([]))]))
  {
  }

  /** Dumping adds the envelope, and succeeds on any payload of at most a million bytes. */
  lemma SmallPayloadIsDumped(v: Value, payload: Json)
    requires Encode(v, 0, DEFAULT.maxDepth) == Ok(payload) && JsonBytes(payload) <= 1_000_000
    ensures Dumps(DEFAULT, v) == Ok(Envelope("generic", payload))
  {
    assert |"generic"| == 7;
    EnvelopeBytes(DEFAULT, payload);
  }

  /** What means nothing is not loaded. */
  lemma MeaninglessIsRefused(v: Value)
    requires ArraysFit(v) && Dumps(DEFAULT, v).Ok? && Meaning(Wired(v)).None?
    ensures Loaded(DEFAULT, Dumps(DEFAULT, v).value).None?
  {
    DumpedPayload(DEFAULT, v);
  }

  /** A named tuple is written under the name of its class, which the decoder does not know. */
  lemma NamedTupleIsWrittenButRefused()
    ensures var v := VCollection(Tuple, "Point", []);
            ArraysFit(v) && Dumps(DEFAULT, v).Ok? && Loaded(DEFAULT, Dumps(DEFAULT, v).value).None?
  {
    var v := VCollection(Tuple, "Point", []);
    assert |"Point"| == 5 && |"items"| == 5;
    EncodesNothing("Point", 128);
    TaggedBytes("Point", Member("items", JArray([])));
    SmallPayloadIsDumped(v, Tagged("Point", [Member("items", JArray([]))]));
    UnknownTag();
    MeaninglessIsRefused(v);
  }

  lemma UnknownTag()
    ensures TagNamed("Point") == NoTag
  {
    assert |"Point"| == 5 && "Point"[0] == 'P';
    assert |"float"| == 5 && "float"[0] == 'f' && |"bytes"| == 5 && "bytes"[0] == 'b';
    assert |"tuple"| == 5 && "tuple"[0] == 't';
    assert |"complex"| == 7 && |"ndarray"| == 7 && |"mapping"| == 7;
    assert |"list"| == 4 && |"set"| == 3 && |"frozenset"| == 9;
    assert |"unknown_state"| == 13 && |"data_ref"| == 8 && |"state_ref"| == 9;
  }

  /** A mapping of a hashable class may be a key; it is written, and read back it is no longer hashable. */
  lemma MappingKeyIsWrittenButRefused()
    ensures var v := VMapping([Pair(VMapping([]), VNone)]);
            ArraysFit(v) && Dumps(DEFAULT, v).Ok? && Loaded(DEFAULT, Dumps(DEFAULT, v).value).None?
  {
    var pair := Pair(VMapping([]), VNone);
    var v := VMapping([pair]);
    var key := Tagged("mapping", [Member("items", JArray([]))]);
    EncodesMapping([], 1, 128);
    EncodesPair(pair, key);
    EncodesMapping([pair], 0, 128);
    assert |"mapping"| == 7 && |"items"| == 5;
    TaggedBytes("mapping", Member("items", JArray([])));
    PairListBytes(key);
    TaggedBytes("mapping", Member("items", JArray([JArray([key, JNull])])));
    SmallPayloadIsDumped(v, Tagged("mapping", [Member("items", JArray([JArray([key, JNull])]))]));
    KeyIsMeaningless(pair);
    MeaninglessIsRefused(v);
  }

  lemma PairListBytes(key: Json)
    ensures JsonBytes(JArray([JArray([key, JNull])])) == 9 + JsonBytes(key)
  {
    var entry := JArray([key, JNull]);
    PairBytes(entry);
    assert [entry][..0] == [];
    assert ItemsBytes([entry]) == JsonBytes(entry);
  }

  lemma EncodesPair(pair: Pair, key: Json)
    requires pair.value == VNone && Encode(pair.key, 1, 128) == Ok(key)
    ensures EncodePairs([pair], 1, 128) == Ok([JArray([key, JNull])])
  {
    var ps := [pair];
    assert ps[..|ps| - 1] == [] && ps[|ps| - 1] == pair;
    assert EncodePairs(ps[..|ps| - 1], 1, 128) == Ok([]) && Encode(pair.value, 1, 128) == Ok(JNull);
    assert [] + [JArray([key, JNull])] == [JArray([key, JNull])];
  }

  lemma KeyIsMeaningless(pair: Pair)
    requires pair == Pair(VMapping([]), VNone)
    ensures ArraysFit(VMapping([pair]))
    ensures Meaning(Wired(VMapping([pair]))).None?
  {
    var e := Entry(Wired(pair.key), Wired(pair.value));
    assert [pair][..0] == [] && [e][..0] == [];
    assert WiredPairs([pair]) == [e];
    assert Wired(pair.key) == MappingItems([]) && Meaning(MappingItems([])) == Some(VMapping([]));
    MeaningPairsStep([], e);
    assert [] + [e] == [e];
    assert Meaning(MappingItems([e])).None?;
    assert Wired(VMapping([pair])) == MappingItems(WiredPairs([pair]));
  }
}
