/** How the decoder reads each form that the encoder writes. */
module EncodedForms {
  import opened Outcomes
  import opened Json
  import opened SafeCodec

  lemma LookupTwo(tag: string, a: Member, b: Member)
    requires a.name != VALUE_TAG && b.name != VALUE_TAG && a.name != b.name
    ensures TagOf(Tagged(tag, [a, b]).members) == TagNamed(tag)
    ensures Lookup(Tagged(tag, [a, b]).members, a.name) == Some(a.value)
    ensures Lookup(Tagged(tag, [a, b]).members, b.name) == Some(b.value)
  {
    var all := Tagged(tag, [a, b]).members;
    assert all[..2] == Tagged(tag, [a]).members;
    LookupOne(tag, a, a.name);
  }

  lemma ShapeReturns(shape: seq<int>)
    requires forall i | 0 <= i < |shape| :: shape[i] >= 0
    ensures IsShape(ShapeWire(shape).items) && ShapeOf(ShapeWire(shape).items) == shape
  {
  }

  lemma LookupThree(tag: string, a: Member, b: Member, c: Member)
    requires a.name != VALUE_TAG && b.name != VALUE_TAG && c.name != VALUE_TAG
    requires a.name != b.name && a.name != c.name && b.name != c.name
    ensures TagOf(Tagged(tag, [a, b, c]).members) == TagNamed(tag)
    ensures Lookup(Tagged(tag, [a, b, c]).members, a.name) == Some(a.value)
    ensures Lookup(Tagged(tag, [a, b, c]).members, b.name) == Some(b.value)
    ensures Lookup(Tagged(tag, [a, b, c]).members, c.name) == Some(c.value)
  {
    var all := Tagged(tag, [a, b, c]).members;
    assert all[..3] == Tagged(tag, [a, b]).members;
    LookupTwo(tag, a, b);
  }

  /** What reading back an array gives: its named element type, at least one dimension, the base class. */
  function ArrayLeaf(dtype: Dtype, shape: seq<int>, data: seq<int>): Option<Value> {
    if dtype.itemSize == 0 then None else Some(VArray(Named(dtype), ContiguousShape(shape), data, true, false))
  }

  lemma ArrayReads(members: seq<Member>, dtype: Dtype, shape: seq<int>, data: seq<int>)
    requires Lookup(members, "data") == Some(JString(Base64Of(data)))
    requires Lookup(members, "dtype") == Some(JString(NameOf(dtype)))
    requires Lookup(members, "shape") == Some(ShapeWire(shape))
    requires dtype.detail.None? && !dtype.holdsObjects && |data| == Product(shape) * dtype.itemSize
    requires forall i | 0 <= i < |shape| :: shape[i] >= 0
    ensures ArrayOf(members) ==
              if dtype.itemSize == 0 then None else Some(VArray(dtype, shape, data, true, false))
  {
    ShapeReturns(shape);
  }

  lemma ParsesArrayTag(members: seq<Member>)
    requires TagOf(members) == ArrayTag
    ensures Parse(JObject(members)) == Leaf(ArrayOf(members))
  {
  }

  lemma ContiguousKeepsSize(shape: seq<int>)
    ensures Product(ContiguousShape(shape)) == Product(shape)
  {
    assert [1][..0] == [];
  }

  lemma ParsesArray(dtype: Dtype, shape: seq<int>, data: seq<int>)
    requires !dtype.holdsObjects && |data| == Product(shape) * dtype.itemSize
    requires forall i | 0 <= i < |shape| :: shape[i] >= 0
    ensures Parse(ArrayWire(dtype, shape, data)) == Leaf(ArrayLeaf(dtype, shape, data))
  {
    var a, b := Member("data", JString(Base64Of(data))), Member("dtype", JString(NameOf(Named(dtype))));
    var c := Member("shape", ShapeWire(ContiguousShape(shape)));
    assert |a.name| == 4 && |b.name| == 5 && |c.name| == 5 && a.name[0] == 'd' && b.name[0] == 'd' && c.name[0] == 's';
    LookupThree("ndarray", a, b, c);
    TagIsFound(ArrayTag);
    ContiguousKeepsSize(shape);
    ArrayReads(Tagged("ndarray", [a, b, c]).members, Named(dtype), ContiguousShape(shape), data);
    ParsesArrayTag(Tagged("ndarray", [a, b, c]).members);
  }

  lemma ParsesFloat(f: Float)
    ensures Parse(FloatWire(f)) == Leaf(Some(VFloat(f)))
  {
    if !f.Finite? {
      LookupOne("float", FloatWire(f).members[1], "value");
      TagIsFound(FloatTag);
    }
  }

  lemma ParsesComplex(re: Json, im: Json)
    ensures Parse(Tagged("complex", [Member("imag", im), Member("real", re)])) == ComplexParts(Parse(re), Parse(im))
  {
    LookupTwo("complex", Member("imag", im), Member("real", re));
    TagIsFound(ComplexTag);
  }

  lemma ParsesBytes(data: seq<int>)
    ensures Parse(Tagged("bytes", [Member("data", JString(Base64Of(data)))])) == Leaf(Some(VBytes(false, data)))
  {
    LookupOne("bytes", Member("data", JString(Base64Of(data))), "data");
    TagIsFound(BytesTag);
  }

  lemma ParsesProtocol(protocol: Protocol, j: Json)
    ensures Parse(Tagged(TagName(ProtocolTag(protocol)), [Member("payload", j)])) == ProtocolPayload(protocol, Parse(j))
  {
    LookupOne(TagName(ProtocolTag(protocol)), Member("payload", j), "payload");
    TagIsFound(ProtocolTag(protocol));
  }

  lemma ParsesMapping(js: seq<Json>)
    ensures Parse(Tagged("mapping", [Member("items", JArray(js))])) == MappingItems(ParsePairs(js))
  {
    LookupOne("mapping", Member("items", JArray(js)), "items");
    TagIsFound(MappingTag);
  }

  lemma {:induction false} NoPairs(js: seq<Json>)
    requires forall j <- js :: !j.JArray?
    ensures ParsePairs(js) == seq(|js|, _ => Malformed)
  {
    if js != [] {
      NoPairs(js[..|js| - 1]);
    }
  }

  /** An object whose only payload is `items` reads back as its tag says. */
  lemma ParsesItems(members: seq<Member>, js: seq<Json>)
    requires Lookup(members, "items") == Some(JArray(js))
    requires Lookup(members, "value").None? && Lookup(members, "real").None? && Lookup(members, "data").None?
    requires Lookup(members, "dtype").None? && Lookup(members, "payload").None?
    ensures Parse(JObject(members)) ==
              match TagOf(members)
              case CollectionTag(kind) => CollectionItems(kind, ParseAll(js))
              case MappingTag => MappingItems(ParsePairs(js))
              case _ => Leaf(None)
  {
  }

  /** A collection reads back as its class name says: as its items, as malformed, or as another kind. */
  lemma ParsesCollection(typeName: string, js: seq<Json>)
    requires forall j <- js :: !j.JArray?
    ensures Parse(Tagged(typeName, [Member("items", JArray(js))])) == Disguised(TagNamed(typeName), ParseAll(js))
  {
    var items := Member("items", JArray(js));
    NoPairs(js);
    LookupOne(typeName, items, "items");
    LookupOne(typeName, items, "value");
    LookupOne(typeName, items, "real");
    LookupOne(typeName, items, "data");
    LookupOne(typeName, items, "dtype");
    LookupOne(typeName, items, "payload");
    ParsesItems(Tagged(typeName, [items]).members, js);
  }

  lemma EncodeAllStep(vs: seq<Value>, depth: nat, maxDepth: nat)
    requires vs != [] && EncodeAll(vs, depth, maxDepth).Ok?
    ensures EncodeAll(vs[..|vs| - 1], depth, maxDepth).Ok? && Encode(vs[|vs| - 1], depth, maxDepth).Ok?
    ensures EncodeAll(vs, depth, maxDepth).value ==
              EncodeAll(vs[..|vs| - 1], depth, maxDepth).value + [Encode(vs[|vs| - 1], depth, maxDepth).value]
  {
  }

  lemma EncodePairsStep(ps: seq<Pair>, depth: nat, maxDepth: nat)
    requires ps != [] && EncodePairs(ps, depth, maxDepth).Ok?
    ensures EncodePairs(ps[..|ps| - 1], depth, maxDepth).Ok?
    ensures Encode(ps[|ps| - 1].key, depth, maxDepth).Ok? && Encode(ps[|ps| - 1].value, depth, maxDepth).Ok?
    ensures EncodePairs(ps, depth, maxDepth).value ==
              EncodePairs(ps[..|ps| - 1], depth, maxDepth).value +
              [JArray([Encode(ps[|ps| - 1].key, depth, maxDepth).value,
                       Encode(ps[|ps| - 1].value, depth, maxDepth).value])]
  {
  }

  lemma ParseAllStep(js: seq<Json>, j: Json)
    ensures ParseAll(js + [j]) == ParseAll(js) + [Parse(j)]
  {
    assert (js + [j])[..|js|] == js;
  }

  lemma ParsePairsStep(js: seq<Json>, k: Json, v: Json)
    ensures ParsePairs(js + [JArray([k, v])]) == ParsePairs(js) + [Entry(Parse(k), Parse(v))]
  {
    assert (js + [JArray([k, v])])[..|js|] == js;
  }

  // ---- The wire tree of a value ----------------------------------------------------------

  function FloatLeaf(f: Float): Wire {
    Leaf(Some(VFloat(f)))
  }

  /** How a collection of a class with another name reads back. */
  function Disguised(tag: Tag, elements: seq<Wire>): Wire {
    match tag
    case CollectionTag(kind) => CollectionItems(kind, elements)
    case MappingTag => MappingItems(seq(|elements|, _ => Malformed))
    case _ => Leaf(None)
  }

  /** The wire tree that the decoder sees for `v`, whatever the limits. */
  function Wired(v: Value): Wire
    decreases v, 1
  {
    match v
    case VComplex(re, im) => ComplexParts(FloatLeaf(re), FloatLeaf(im))
    case VNumpyScalar(item) => Wired(item)
    case VBytes(_, data) => Leaf(Some(VBytes(false, data)))
    case VArray(dtype, shape, data, _, _) => Leaf(ArrayLeaf(dtype, shape, data))
    case VProtocol(protocol, payload) => ProtocolPayload(protocol, Wired(payload))
    case VMapping(items) => MappingItems(WiredPairs(items))
    case VCollection(_, typeName, elements) => Disguised(TagNamed(typeName), WiredAll(elements))
    case _ => Leaf(Some(v))
  }

  function WiredAll(vs: seq<Value>): (ws: seq<Wire>)
    ensures |ws| == |vs|
    decreases vs, 0
  {
    if vs == [] then [] else WiredAll(vs[..|vs| - 1]) + [Wired(vs[|vs| - 1])]
  }

  function WiredPairs(ps: seq<Pair>): (es: seq<Entry>)
    ensures |es| == |ps|
    decreases ps, 0
  {
    if ps == [] then []
    else
      var last := ps[|ps| - 1];
      assert last.key < last && last.value < last;
      WiredPairs(ps[..|ps| - 1]) + [Entry(Wired(last.key), Wired(last.value))]
  }

  /** Every array in the value owns as many bytes as its shape needs. */
  predicate ArraysFit(v: Value)
    decreases v, 1
  {
    match v
    case VNumpyScalar(item) => ArraysFit(item)
    case VArray(dtype, shape, data, _, _) =>
      (forall i | 0 <= i < |shape| :: shape[i] >= 0) && |data| == Product(shape) * dtype.itemSize
    case VProtocol(_, payload) => ArraysFit(payload)
    case VMapping(items) => ArraysFitPairs(items)
    case VCollection(_, _, elements) => ArraysFitAll(elements)
    case _ => true
  }

  predicate ArraysFitAll(vs: seq<Value>)
    decreases vs, 0
  {
    vs == [] || (ArraysFitAll(vs[..|vs| - 1]) && ArraysFit(vs[|vs| - 1]))
  }

  predicate ArraysFitPairs(ps: seq<Pair>)
    decreases ps, 0
  {
    ps == [] ||
    var last := ps[|ps| - 1];
    assert last.key < last && last.value < last;
    ArraysFitPairs(ps[..|ps| - 1]) && ArraysFit(last.key) && ArraysFit(last.value)
  }

  lemma {:induction false} EncodedIsWired(v: Value, depth: nat, maxDepth: nat)
    requires ArraysFit(v) && Encode(v, depth, maxDepth).Ok?
    ensures Parse(Encode(v, depth, maxDepth).value) == Wired(v)
    decreases v, 1
  {
    match v
    case VFloat(f) => ParsesFloat(f);
    case VComplex(re, im) =>
      ParsesComplex(FloatWire(re), FloatWire(im));
      ParsesFloat(re);
      ParsesFloat(im);
    case VNumpyScalar(item) => EncodedIsWired(item, depth + 1, maxDepth);
    case VBytes(_, data) => ParsesBytes(data);
    case VArray(dtype, shape, data, _, _) => ParsesArray(dtype, shape, data);
    case VProtocol(protocol, payload) =>
      EncodedIsWired(payload, depth + 1, maxDepth);
      ParsesProtocol(protocol, Encode(payload, depth + 1, maxDepth).value);
    case VMapping(items) =>
      EncodedPairsAreWired(items, depth + 1, maxDepth);
      ParsesMapping(EncodePairs(items, depth + 1, maxDepth).value);
    case VCollection(_, typeName, elements) =>
      EncodedAllAreWired(elements, depth + 1, maxDepth);
      ParsesCollection(typeName, EncodeAll(elements, depth + 1, maxDepth).value);
    case _ =>
  }

  lemma {:induction false} EncodedAllAreWired(vs: seq<Value>, depth: nat, maxDepth: nat)
    requires ArraysFitAll(vs) && EncodeAll(vs, depth, maxDepth).Ok?
    ensures ParseAll(EncodeAll(vs, depth, maxDepth).value) == WiredAll(vs)
    decreases vs, 0
  {
    if vs != [] {
      EncodeAllStep(vs, depth, maxDepth);
      EncodedAllAreWired(vs[..|vs| - 1], depth, maxDepth);
      EncodedIsWired(vs[|vs| - 1], depth, maxDepth);
      ParseAllStep(EncodeAll(vs[..|vs| - 1], depth, maxDepth).value, Encode(vs[|vs| - 1], depth, maxDepth).value);
    }
  }

  lemma {:induction false} EncodedPairsAreWired(ps: seq<Pair>, depth: nat, maxDepth: nat)
    requires ArraysFitPairs(ps) && EncodePairs(ps, depth, maxDepth).Ok?
    ensures ParsePairs(EncodePairs(ps, depth, maxDepth).value) == WiredPairs(ps)
    decreases ps, 0
  {
    if ps != [] {
      var last := ps[|ps| - 1];
      assert last.key < last && last.value < last;
      EncodePairsStep(ps, depth, maxDepth);
      EncodedPairsAreWired(ps[..|ps| - 1], depth, maxDepth);
      EncodedIsWired(last.key, depth, maxDepth);
      EncodedIsWired(last.value, depth, maxDepth);
      ParsePairsStep(EncodePairs(ps[..|ps| - 1], depth, maxDepth).value,
                     Encode(last.key, depth, maxDepth).value, Encode(last.value, depth, maxDepth).value);
    }
  }
}
