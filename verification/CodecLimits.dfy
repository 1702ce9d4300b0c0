/** What depth, nodes and bytes an encoded value takes. */
module CodecLimits {
  import opened Outcomes
  import opened Json
  import opened SafeCodec
  import opened EncodedForms
  import opened CodecRoundTrip

  // ---- Depth -----------------------------------------------------------------------------

  /** How far below its start the encoder descends. */
  function EncodeDepth(v: Value): nat
    decreases v, 1
  {
    match v
    case VComplex(_, _) => 1
    case VNumpyScalar(item) => 1 + EncodeDepth(item)
    case VProtocol(_, payload) => 1 + EncodeDepth(payload)
    case VMapping(items) => DepthPairs(items)
    case VCollection(_, _, elements) => DepthAll(elements)
    case _ => 0
  }

  function DepthAll(vs: seq<Value>): nat
    decreases vs, 0
  {
    if vs == [] then 0 else Max(DepthAll(vs[..|vs| - 1]), 1 + EncodeDepth(vs[|vs| - 1]))
  }

  function DepthPairs(ps: seq<Pair>): nat
    decreases ps, 0
  {
    if ps == [] then 0
    else
      var last := ps[|ps| - 1];
      assert last.key < last && last.value < last;
      Max(DepthPairs(ps[..|ps| - 1]), 1 + Max(EncodeDepth(last.key), EncodeDepth(last.value)))
  }

  /** The encoder accepts exactly the supported values that are not too deep. */
  lemma {:induction false} EncodesIff(v: Value, depth: nat, maxDepth: nat)
    ensures Encode(v, depth, maxDepth).Ok? <==> Supported(v) && depth + EncodeDepth(v) <= maxDepth
    decreases v, 1
  {
    if depth <= maxDepth {
      match v
      case VNumpyScalar(item) => EncodesIff(item, depth + 1, maxDepth);
      case VProtocol(_, payload) => EncodesIff(payload, depth + 1, maxDepth);
      case VMapping(items) => EncodesPairsIff(items, depth, maxDepth);
      case VCollection(_, _, elements) => EncodesAllIff(elements, depth, maxDepth);
      case _ =>
    }
  }

  lemma {:induction false} EncodesAllIff(vs: seq<Value>, depth: nat, maxDepth: nat)
    requires depth <= maxDepth
    ensures EncodeAll(vs, depth + 1, maxDepth).Ok? <==> SupportedAll(vs) && depth + DepthAll(vs) <= maxDepth
    decreases vs, 0
  {
    if vs != [] {
      EncodesAllIff(vs[..|vs| - 1], depth, maxDepth);
      EncodesIff(vs[|vs| - 1], depth + 1, maxDepth);
    }
  }

  lemma {:induction false} EncodesPairsIff(ps: seq<Pair>, depth: nat, maxDepth: nat)
    requires depth <= maxDepth
    ensures EncodePairs(ps, depth + 1, maxDepth).Ok? <==> SupportedPairs(ps) && depth + DepthPairs(ps) <= maxDepth
    decreases ps, 0
  {
    if ps != [] {
      EncodesPairsIff(ps[..|ps| - 1], depth, maxDepth);
      var last := ps[|ps| - 1];
      assert last.key < last && last.value < last;
      EncodesIff(last.key, depth + 1, maxDepth);
      EncodesIff(last.value, depth + 1, maxDepth);
    }
  }

  /** The decoder never descends further than the encoder did. */
  lemma {:induction false} DecoderIsNoDeeper(v: Value)
    ensures Height(Wired(v)) <= EncodeDepth(v)
    decreases v, 1
  {
    match v
    case VNumpyScalar(item) => DecoderIsNoDeeper(item);
    case VProtocol(_, payload) => DecoderIsNoDeeper(payload);
    case VMapping(items) => DecoderIsNoDeeperInPairs(items);
    case VCollection(_, typeName, elements) =>
      DecoderIsNoDeeperInAll(elements);
      MalformedIsFlat(|elements|);
    case _ =>
  }

  lemma {:induction false} DecoderIsNoDeeperInAll(vs: seq<Value>)
    ensures HeightAll(WiredAll(vs)) <= DepthAll(vs)
    decreases vs, 0
  {
    if vs != [] {
      var ws, w := WiredAll(vs[..|vs| - 1]), Wired(vs[|vs| - 1]);
      assert (ws + [w])[..|ws|] == ws;
      DecoderIsNoDeeperInAll(vs[..|vs| - 1]);
      DecoderIsNoDeeper(vs[|vs| - 1]);
    }
  }

  lemma {:induction false} DecoderIsNoDeeperInPairs(ps: seq<Pair>)
    ensures HeightPairs(WiredPairs(ps)) <= DepthPairs(ps)
    decreases ps, 0
  {
    if ps != [] {
      var last := ps[|ps| - 1];
      assert last.key < last && last.value < last;
      var es, e := WiredPairs(ps[..|ps| - 1]), Entry(Wired(last.key), Wired(last.value));
      assert (es + [e])[..|es|] == es;
      DecoderIsNoDeeperInPairs(ps[..|ps| - 1]);
      DecoderIsNoDeeper(last.key);
      DecoderIsNoDeeper(last.value);
    }
  }

  lemma {:induction false} MalformedIsFlat(n: nat)
    ensures HeightPairs(seq(n, _ => Malformed)) == 0
  {
    if n > 0 {
      MalformedIsFlat(n - 1);
      assert seq(n, _ => Malformed)[..n - 1] == seq(n - 1, _ => Malformed);
    }
  }

  // ---- Nodes -----------------------------------------------------------------------------

  /** How many values a value consists of; a NumPy scalar counts as its item. */
  function NodeCount(v: Value): nat
    decreases v, 1
  {
    match v
    case VComplex(_, _) => 3
    case VNumpyScalar(item) => NodeCount(item)
    case VProtocol(_, payload) => 1 + NodeCount(payload)
    case VMapping(items) => 1 + CountPairs(items)
    case VCollection(_, _, elements) => 1 + CountAll(elements)
    case _ => 1
  }

  function CountAll(vs: seq<Value>): nat
    decreases vs, 0
  {
    if vs == [] then 0 else CountAll(vs[..|vs| - 1]) + NodeCount(vs[|vs| - 1])
  }

  function CountPairs(ps: seq<Pair>): nat
    decreases ps, 0
  {
    if ps == [] then 0
    else
      var last := ps[|ps| - 1];
      assert last.key < last && last.value < last;
      CountPairs(ps[..|ps| - 1]) + NodeCount(last.key) + NodeCount(last.value)
  }

  lemma BuiltInCollectionIsWired(kind: CollectionKind, elements: seq<Value>)
    ensures Wired(VCollection(kind, KindName(kind), elements)) == CollectionItems(kind, WiredAll(elements))
  {
    TagIsFound(CollectionTag(kind));
  }

  lemma {:induction false} DecoderCountsEachNode(v: Value)
    requires BuiltIn(v)
    ensures Nodes(Wired(v)) == NodeCount(v)
    decreases v, 1
  {
    match v
    case VNumpyScalar(item) => DecoderCountsEachNode(item);
    case VProtocol(_, payload) => DecoderCountsEachNode(payload);
    case VMapping(items) => DecoderCountsPairs(items);
    case VCollection(kind, _, elements) =>
      DecoderCountsAll(elements);
      BuiltInCollectionIsWired(kind, elements);
    case _ =>
  }

  lemma {:induction false} DecoderCountsAll(vs: seq<Value>)
    requires BuiltInAll(vs)
    ensures NodesAll(WiredAll(vs)) == CountAll(vs)
    decreases vs, 0
  {
    if vs != [] {
      var ws, w := WiredAll(vs[..|vs| - 1]), Wired(vs[|vs| - 1]);
      assert (ws + [w])[..|ws|] == ws;
      DecoderCountsAll(vs[..|vs| - 1]);
      DecoderCountsEachNode(vs[|vs| - 1]);
    }
  }

  lemma {:induction false} DecoderCountsPairs(ps: seq<Pair>)
    requires BuiltInPairs(ps)
    ensures NodesPairs(WiredPairs(ps)) == CountPairs(ps)
    decreases ps, 0
  {
    if ps != [] {
      var last := ps[|ps| - 1];
      assert last.key < last && last.value < last;
      var es, e := WiredPairs(ps[..|ps| - 1]), Entry(Wired(last.key), Wired(last.value));
      assert (es + [e])[..|es|] == es;
      DecoderCountsPairs(ps[..|ps| - 1]);
      DecoderCountsEachNode(last.key);
      DecoderCountsEachNode(last.value);
    }
  }

  // ---- Nodes against bytes ---------------------------------------------------------------

  /** The text of any JSON value has at least as many bytes as the decoder visits nodes. */
  lemma {:induction false} NodesWithinBytes(j: Json)
    ensures Nodes(Parse(j)) <= JsonBytes(j)
    decreases j, 2
  {
    if j.JObject? {
      match TagOf(j.members)
      case ComplexTag => ComplexNodesWithinBytes(j);
      case ProtocolTag(_) => PayloadNodesWithinBytes(j);
      case MappingTag => ListNodesWithinBytes(j);
      case CollectionTag(_) => ListNodesWithinBytes(j);
      case _ =>
    }
  }

  lemma {:induction false} ComplexNodesWithinBytes(j: Json)
    requires j.JObject? && TagOf(j.members).ComplexTag?
    ensures Nodes(Parse(j)) <= JsonBytes(j)
    decreases j, 1
  {
    match (Lookup(j.members, "real"), Lookup(j.members, "imag"))
    case (Some(re), Some(im)) =>
      assert "real"[0] != "imag"[0];
      MembersOutweigh(j.members, "real", "imag");
      NodesWithinBytes(re);
      NodesWithinBytes(im);
      assert Parse(j) == ComplexParts(Parse(re), Parse(im));
    case _ =>
  }

  lemma {:induction false} PayloadNodesWithinBytes(j: Json)
    requires j.JObject? && TagOf(j.members).ProtocolTag?
    ensures Nodes(Parse(j)) <= JsonBytes(j)
    decreases j, 1
  {
    match Lookup(j.members, "payload")
    case Some(p) =>
      MembersOutweigh(j.members, "payload", "payload");
      NodesWithinBytes(p);
      assert Parse(j) == ProtocolPayload(TagOf(j.members).protocol, Parse(p));
    case None =>
  }

  lemma {:induction false} ListNodesWithinBytes(j: Json)
    requires j.JObject? && (TagOf(j.members).MappingTag? || TagOf(j.members).CollectionTag?)
    ensures Nodes(Parse(j)) <= JsonBytes(j)
    decreases j, 1
  {
    match Lookup(j.members, "items")
    case Some(JArray(items)) =>
      ListNodes(j.members, items);
      ListOutweighed(j.members, items);
      ItemNodesWithinBytes(items);
      PairNodesWithinBytes(items);
    case _ => NoListNodes(j.members);
  }

  lemma ListNodes(members: seq<Member>, items: seq<Json>)
    requires TagOf(members).MappingTag? || TagOf(members).CollectionTag?
    requires Lookup(members, "items") == Some(JArray(items))
    ensures Nodes(Parse(JObject(members))) == 1 + NodesPairs(ParsePairs(items))
            || Nodes(Parse(JObject(members))) == 1 + NodesAll(ParseAll(items))
  {
  }

  lemma NoListNodes(members: seq<Member>)
    requires TagOf(members).MappingTag? || TagOf(members).CollectionTag?
    requires Lookup(members, "items").None? || !Lookup(members, "items").value.JArray?
    ensures Nodes(Parse(JObject(members))) == 1
  {
  }

  lemma ListOutweighed(members: seq<Member>, items: seq<Json>)
    requires Lookup(members, "items") == Some(JArray(items))
    ensures JsonBytes(JObject(members)) >= 1 + ItemsBytes(items)
  {
    MembersOutweigh(members, "items", "items");
  }

  lemma {:induction false} ItemNodesWithinBytes(js: seq<Json>)
    ensures NodesAll(ParseAll(js)) <= ItemsBytes(js)
    decreases js, 0
  {
    if js != [] {
      var init, last := js[..|js| - 1], js[|js| - 1];
      assert (ParseAll(init) + [Parse(last)])[..|init|] == ParseAll(init);
      ItemNodesWithinBytes(init);
      NodesWithinBytes(last);
    }
  }

  lemma {:induction false} PairNodesWithinBytes(js: seq<Json>)
    ensures NodesPairs(ParsePairs(js)) <= ItemsBytes(js)
    decreases js, 0
  {
    if js != [] {
      var init, last := js[..|js| - 1], js[|js| - 1];
      var es := ParsePairs(js);
      assert es[..|init|] == ParsePairs(init);
      PairNodesWithinBytes(init);
      if IsPair(last) {
        NodesWithinBytes(last.items[0]);
        NodesWithinBytes(last.items[1]);
        PairBytes(last);
      }
    }
  }

  lemma PairBytes(j: Json)
    requires IsPair(j)
    ensures JsonBytes(j) == 3 + JsonBytes(j.items[0]) + JsonBytes(j.items[1])
  {
    var one := [j.items[0]];
    assert j.items[..1] == one && one[..0] == [];
    assert ItemsBytes(one) == JsonBytes(j.items[0]);
  }
}
