/** The decoder: one traversal with a running node count, proved against the limit-free meaning. */
module SafeDecoder {
  import opened Outcomes
  import opened Json
  import opened SafeCodec

  /** A malformed, too deep or too large prefix already decides the whole list. */
  lemma {:induction false} PrefixBounds(ws: seq<Wire>, k: nat)
    requires k <= |ws|
    ensures MeaningAll(ws).Some? ==> MeaningAll(ws[..k]).Some?
    ensures HeightAll(ws[..k]) <= HeightAll(ws)
    ensures NodesAll(ws[..k]) <= NodesAll(ws)
  {
    if k == |ws| {
      assert ws[..k] == ws;
    } else {
      assert ws[..|ws| - 1][..k] == ws[..k];
      PrefixBounds(ws[..|ws| - 1], k);
    }
  }

  lemma {:induction false} PairPrefixBounds(ws: seq<Entry>, k: nat)
    requires k <= |ws|
    ensures MeaningPairs(ws).Some? ==> MeaningPairs(ws[..k]).Some?
    ensures HeightPairs(ws[..k]) <= HeightPairs(ws)
    ensures NodesPairs(ws[..k]) <= NodesPairs(ws)
  {
    if k == |ws| {
      assert ws[..k] == ws;
    } else {
      assert ws[..|ws| - 1][..k] == ws[..k];
      PairPrefixBounds(ws[..|ws| - 1], k);
    }
  }

  lemma PairStep(ws: seq<Entry>, i: nat)
    requires i < |ws|
    ensures MeaningPairs(ws[..i + 1]) ==
              if MeaningPairs(ws[..i]).Some? && MeaningEntry(ws[i]).Some?
              then Some(MeaningPairs(ws[..i]).value + [MeaningEntry(ws[i]).value]) else None
    ensures HeightPairs(ws[..i + 1]) == Max(HeightPairs(ws[..i]), HeightEntry(ws[i]))
    ensures NodesPairs(ws[..i + 1]) == NodesPairs(ws[..i]) + NodesEntry(ws[i])
  {
    assert ws[..i + 1][..i] == ws[..i];
  }

  lemma InsertLast(pairs: seq<Pair>, p: Pair)
    ensures InsertAll(pairs + [p]) == Insert(InsertAll(pairs), p.key, p.value)
  {
    assert (pairs + [p])[..|pairs|] == pairs;
  }

  class Decoder {
    const maxDepth: nat
    const maxNodes: nat
    var nodes: nat

    constructor (maxDepth: nat, maxNodes: nat)
      ensures this.maxDepth == maxDepth && this.maxNodes == maxNodes && nodes == 0
    {
      this.maxDepth, this.maxNodes, nodes := maxDepth, maxNodes, 0;
    }

    ghost predicate Fits(before: nat, depth: nat, meaningful: bool, height: nat, count: nat) {
      meaningful && depth + height <= maxDepth && before + count <= maxNodes
    }

    /**
     Decoding succeeds exactly when the wire value has a meaning and both limits cover what is
     visited; then it returns that meaning and has counted each visited value once.
     */
    method Decode(w: Wire, depth: nat) returns (r: Result<Value, CodecError>)
      modifies this`nodes
      ensures r.Ok? <==> Fits(old(nodes), depth, Meaning(w).Some?, Height(w), Nodes(w))
      ensures r.Ok? ==> r.value == Meaning(w).value && nodes == old(nodes) + Nodes(w)
      ensures nodes <= old(nodes) + Nodes(w)
      decreases w, 2
    {
      nodes := nodes + 1;
      if nodes > maxNodes {
        return Err(NodeLimit);
      }
      if depth > maxDepth {
        return Err(DepthLimit);
      }
      match w
      case Leaf(value) => r := if value.Some? then Ok(value.value) else Err(InvalidWire);
      case ComplexParts(re, im) => r := DecodeComplex(w, re, im, depth);
      case ProtocolPayload(protocol, payload) => r := DecodeProtocol(protocol, payload, depth);
      case MappingItems(list) =>
        var restored := DecodePairs(list, depth);
        if restored.Err? {
          return Err(restored.error);
        }
        r := Ok(VMapping(restored.value));
      case CollectionItems(kind, list) =>
        var elements := DecodeAll(list, depth);
        if elements.Err? {
          return Err(elements.error);
        }
        var value := CollectionOf(kind, elements.value);
        r := if value.Some? then Ok(value.value) else Err(InvalidWire);
    }

    method DecodeComplex(ghost w: Wire, re: Wire, im: Wire, depth: nat) returns (r: Result<Value, CodecError>)
      requires re < w && im < w
      requires depth <= maxDepth && nodes <= maxNodes
      modifies this`nodes
      ensures r.Ok? <==>
              && Fits(old(nodes), depth + 1, Meaning(re).Some? && Meaning(im).Some?,
                      Max(Height(re), Height(im)), Nodes(re) + Nodes(im))
              && ComplexOf(Meaning(re).value, Meaning(im).value).Some?
      ensures r.Ok? ==> Some(r.value) == ComplexOf(Meaning(re).value, Meaning(im).value)
      ensures r.Ok? ==> nodes == old(nodes) + Nodes(re) + Nodes(im)
      ensures nodes <= old(nodes) + Nodes(re) + Nodes(im)
      decreases w, 0
    {
      var x := Decode(re, depth + 1);
      if x.Err? {
        return x;
      }
      var y := Decode(im, depth + 1);
      if y.Err? {
        return y;
      }
      var value := ComplexOf(x.value, y.value);
      r := if value.Some? then Ok(value.value) else Err(InvalidWire);
    }

    method DecodeProtocol(protocol: Protocol, payload: Wire, depth: nat) returns (r: Result<Value, CodecError>)
      requires depth <= maxDepth && nodes <= maxNodes
      modifies this`nodes
      ensures r.Ok? <==>
              && Fits(old(nodes), depth + 1, Meaning(payload).Some?, Height(payload), Nodes(payload))
              && ProtocolValue(protocol, Meaning(payload).value).Some?
      ensures r.Ok? ==> Some(r.value) == ProtocolValue(protocol, Meaning(payload).value)
      ensures r.Ok? ==> nodes == old(nodes) + Nodes(payload)
      ensures nodes <= old(nodes) + Nodes(payload)
      decreases payload, 3
    {
      var x := Decode(payload, depth + 1);
      if x.Err? {
        return x;
      }
      var value := ProtocolValue(protocol, x.value);
      r := if value.Some? then Ok(value.value) else Err(InvalidWire);
    }

    method DecodeAll(ws: seq<Wire>, depth: nat) returns (r: Result<seq<Value>, CodecError>)
      requires depth <= maxDepth && nodes <= maxNodes
      modifies this`nodes
      ensures r.Ok? <==> Fits(old(nodes), depth, MeaningAll(ws).Some?, HeightAll(ws), NodesAll(ws))
      ensures r.Ok? ==> r.value == MeaningAll(ws).value && nodes == old(nodes) + NodesAll(ws)
      ensures nodes <= old(nodes) + NodesAll(ws)
      decreases ws, 0
    {
      var vs: seq<Value> := [];
      var i := 0;
      while i < |ws|
        invariant i <= |ws|
        invariant Fits(old(nodes), depth, MeaningAll(ws[..i]) == Some(vs), HeightAll(ws[..i]), NodesAll(ws[..i]))
        invariant nodes == old(nodes) + NodesAll(ws[..i])
      {
        assert ws[..i + 1][..i] == ws[..i];
        PrefixBounds(ws, i + 1);
        var x := Decode(ws[i], depth + 1);
        if x.Err? {
          return Err(x.error);
        }
        vs := vs + [x.value];
        i := i + 1;
      }
      assert ws[..|ws|] == ws;
      r := Ok(vs);
    }

    method DecodePair(w: Entry, depth: nat) returns (r: Result<Pair, CodecError>)
      requires depth <= maxDepth && nodes <= maxNodes
      modifies this`nodes
      ensures r.Ok? <==> Fits(old(nodes), depth, MeaningEntry(w).Some?, HeightEntry(w), NodesEntry(w))
      ensures r.Ok? ==> r.value == MeaningEntry(w).value && nodes == old(nodes) + NodesEntry(w)
      ensures nodes <= old(nodes) + NodesEntry(w)
      decreases w, 3
    {
      if w.Malformed? {
        return Err(InvalidWire);
      }
      var key := Decode(w.key, depth + 1);
      if key.Err? {
        return Err(key.error);
      }
      if !Hashable(key.value) {
        return Err(InvalidWire);
      }
      var value := Decode(w.value, depth + 1);
      if value.Err? {
        return Err(value.error);
      }
      r := Ok(Pair(key.value, value.value));
    }

    method DecodePairs(ws: seq<Entry>, depth: nat) returns (r: Result<seq<Pair>, CodecError>)
      requires depth <= maxDepth && nodes <= maxNodes
      modifies this`nodes
      ensures r.Ok? <==> Fits(old(nodes), depth, MeaningPairs(ws).Some?, HeightPairs(ws), NodesPairs(ws))
      ensures r.Ok? ==> r.value == InsertAll(MeaningPairs(ws).value) && nodes == old(nodes) + NodesPairs(ws)
      ensures nodes <= old(nodes) + NodesPairs(ws)
      decreases ws, 0
    {
      ghost var pairs: seq<Pair> := [];
      var restored: seq<Pair> := [];
      var i := 0;
      while i < |ws|
        invariant i <= |ws|
        invariant Fits(old(nodes), depth, MeaningPairs(ws[..i]) == Some(pairs),
                       HeightPairs(ws[..i]), NodesPairs(ws[..i]))
        invariant nodes == old(nodes) + NodesPairs(ws[..i])
        invariant restored == InsertAll(pairs)
      {
        PairStep(ws, i);
        var pair := DecodePair(ws[i], depth);
        if pair.Err? {
          PairPrefixBounds(ws, i + 1);
          return Err(pair.error);
        }
        InsertLast(pairs, pair.value);
        restored := Insert(restored, pair.value.key, pair.value.value);
        pairs := pairs + [pair.value];
        i := i + 1;
      }
      assert ws[..|ws|] == ws;
      r := Ok(restored);
    }
  }
}
