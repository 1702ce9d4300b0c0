/** The versioned envelope around the safe codec, with its byte limit. */
module RedisValueCodec {
  import opened Outcomes
  import opened Json
  import opened SafeCodec
  import opened SafeDecoder
  import opened EncodedForms
  import opened CodecRoundTrip
  import opened CodecLimits

  /** Limits of a codec with `serializer="safe"`. */
  datatype Codec = Codec(scope: string, maxPayloadBytes: nat, maxDepth: nat, maxNodes: nat)

  const DEFAULT := Codec("generic", 8_388_608, 128, 1_000_000)

  const ENVELOPE_VERSION := "blackbase.redis.value/v1"

  function Envelope(scope: string, payload: Json): Json {
    JObject([Member("_blackbase_envelope", JString(Plain(ENVELOPE_VERSION))), Member("payload", payload),
             Member("scope", JString(Plain(scope))), Member("serializer", JString(Plain("safe")))])
  }

  function Dumps(c: Codec, v: Value): Result<Json, CodecError> {
    match Encode(v, 0, c.maxDepth)
    case Err(e) => Err(e)
    case Ok(payload) =>
      var raw := Envelope(c.scope, payload);
      if JsonBytes(raw) > c.maxPayloadBytes then Err(TooLarge) else Ok(raw)
  }

  /** The payload of an envelope that this codec accepts. */
  function PayloadOf(c: Codec, raw: Json): Option<Json> {
    if raw.JObject?
       && Lookup(raw.members, "_blackbase_envelope") == Some(JString(Plain(ENVELOPE_VERSION)))
       && Lookup(raw.members, "scope") == Some(JString(Plain(c.scope)))
       && Lookup(raw.members, "serializer") == Some(JString(Plain("safe")))
    then Lookup(raw.members, "payload") else None
  }

  /** What loading yields: a value when the text, its depth and its nodes are within their limits. */
  function Loaded(c: Codec, raw: Json): Option<Value> {
    match PayloadOf(c, raw)
    case None => None
    case Some(payload) =>
      var w := Parse(payload);
      if JsonBytes(raw) <= c.maxPayloadBytes && Height(w) <= c.maxDepth && Nodes(w) <= c.maxNodes
      then Meaning(w) else None
  }

  method Loads(c: Codec, raw: Json) returns (r: Result<Value, CodecError>)
    ensures r.Ok? <==> Loaded(c, raw).Some?
    ensures r.Ok? ==> r.value == Loaded(c, raw).value
  {
    if JsonBytes(raw) > c.maxPayloadBytes {
      return Err(TooLarge);
    }
    var payload := PayloadOf(c, raw);
    if payload.None? {
      return Err(InvalidWire);
    }
    var decoder := new Decoder(c.maxDepth, c.maxNodes);
    r := decoder.Decode(Parse(payload.value), 0);
  }

  lemma LookupSnoc(ms: seq<Member>, m: Member, name: string)
    ensures Lookup(ms + [m], name) == if m.name == name then Some(m.value) else Lookup(ms, name)
  {
    assert (ms + [m])[..|ms|] == ms;
  }

  lemma LookupAmongFour(a: Member, b: Member, c: Member, d: Member, name: string)
    ensures Lookup([a, b, c, d], name) ==
              if d.name == name then Some(d.value)
              else if c.name == name then Some(c.value)
              else if b.name == name then Some(b.value)
              else if a.name == name then Some(a.value) else None
  {
    assert [a, b, c] + [d] == [a, b, c, d] && [a, b] + [c] == [a, b, c] && [a] + [b] == [a, b] && [] + [a] == [a];
    LookupSnoc([a, b, c], d, name);
    LookupSnoc([a, b], c, name);
    LookupSnoc([a], b, name);
    LookupSnoc([], a, name);
  }

  lemma NamesDiffer()
    ensures "_blackbase_envelope" != "payload" && "_blackbase_envelope" != "scope"
    ensures "_blackbase_envelope" != "serializer"
    ensures "payload" != "scope" && "payload" != "serializer" && "scope" != "serializer"
  {
    assert |"_blackbase_envelope"| == 19 && |"payload"| == 7 && |"scope"| == 5 && |"serializer"| == 10;
  }

  lemma EnvelopeReads(a: Member, b: Member, c: Member, d: Member)
    requires a.name != b.name && a.name != c.name && a.name != d.name
    requires b.name != c.name && b.name != d.name && c.name != d.name
    ensures Lookup([a, b, c, d], a.name) == Some(a.value) && Lookup([a, b, c, d], b.name) == Some(b.value)
    ensures Lookup([a, b, c, d], c.name) == Some(c.value) && Lookup([a, b, c, d], d.name) == Some(d.value)
  {
    LookupAmongFour(a, b, c, d, a.name);
    LookupAmongFour(a, b, c, d, b.name);
    LookupAmongFour(a, b, c, d, c.name);
    LookupAmongFour(a, b, c, d, d.name);
  }

  lemma EnvelopeOpens(c: Codec, payload: Json)
    ensures PayloadOf(c, Envelope(c.scope, payload)) == Some(payload)
  {
    NamesDiffer();
    EnvelopeReads(Member("_blackbase_envelope", JString(Plain(ENVELOPE_VERSION))), Member("payload", payload),
                  Member("scope", JString(Plain(c.scope))), Member("serializer", JString(Plain("safe"))));
  }

  lemma EnvelopeIsLonger(c: Codec, raw: Json)
    requires PayloadOf(c, raw).Some?
    ensures JsonBytes(raw) > JsonBytes(PayloadOf(c, raw).value)
  {
    MembersOutweigh(raw.members, "payload", "payload");
  }

  /**
   What the decoder makes of a dumped value: it sees the wire tree of the value, its depth check never
   fires, and it visits fewer nodes than there are bytes.
   */
  lemma DumpedPayload(c: Codec, v: Value)
    requires ArraysFit(v) && Dumps(c, v).Ok?
    ensures PayloadOf(c, Dumps(c, v).value).Some?
    ensures Parse(PayloadOf(c, Dumps(c, v).value).value) == Wired(v)
    ensures JsonBytes(Dumps(c, v).value) <= c.maxPayloadBytes
    ensures Supported(v) && Height(Wired(v)) <= c.maxDepth
    ensures Nodes(Wired(v)) < JsonBytes(Dumps(c, v).value)
  {
    var payload := Encode(v, 0, c.maxDepth).value;
    EnvelopeOpens(c, payload);
    EnvelopeIsLonger(c, Dumps(c, v).value);
    EncodedIsWired(v, 0, c.maxDepth);
    EncodesIff(v, 0, c.maxDepth);
    DecoderIsNoDeeper(v);
    NodesWithinBytes(payload);
  }

  /**
   Loading what was dumped returns the normal form exactly when the wire format keeps all of the
   value and it has no more nodes than the decoder allows.
   */
  lemma LoadsInvertsDumpsIff(c: Codec, v: Value)
    requires ArraysFit(v) && Dumps(c, v).Ok?
    ensures Loaded(c, Dumps(c, v).value) == Some(Normal(v)) <==> Survives(v) && NodeCount(v) <= c.maxNodes
  {
    DumpedPayload(c, v);
    WiredMeaning(v);
    if Survives(v) {
      SurvivorIsBuiltIn(v);
      DecoderCountsEachNode(v);
    }
  }

  /** With no more bytes than nodes allowed, no text whatever can reach the node limit. */
  lemma NodeCheckNeverFires(c: Codec, raw: Json)
    requires c.maxPayloadBytes <= c.maxNodes
    requires JsonBytes(raw) <= c.maxPayloadBytes && PayloadOf(c, raw).Some?
    ensures Nodes(Parse(PayloadOf(c, raw).value)) < c.maxNodes
  {
    EnvelopeIsLonger(c, raw);
    NodesWithinBytes(PayloadOf(c, raw).value);
  }

  /** With no more bytes than nodes allowed, the missing node check of the encoder never matters. */
  lemma ByteLimitImpliesNodeLimit(c: Codec, v: Value)
    requires c.maxPayloadBytes <= c.maxNodes
    requires ArraysFit(v) && Dumps(c, v).Ok?
    ensures Loaded(c, Dumps(c, v).value) == Some(Normal(v)) <==> Survives(v)
  {
    DumpedPayload(c, v);
    LoadsInvertsDumpsIff(c, v);
    if Survives(v) {
      SurvivorIsBuiltIn(v);
      DecoderCountsEachNode(v);
    }
  }

  /** Among values that the wire format keeps, equal texts mean equal normal forms. */
  lemma DumpsIsInjective(c: Codec, v: Value, w: Value)
    requires ArraysFit(v) && Survives(v) && Dumps(c, v).Ok?
    requires ArraysFit(w) && Survives(w) && Dumps(c, w).Ok?
    requires Dumps(c, v).value == Dumps(c, w).value
    ensures Normal(v) == Normal(w)
  {
    DumpedPayload(c, v);
    DumpedPayload(c, w);
    WiredMeaning(v);
    WiredMeaning(w);
  }

  /** What is written: supported values within the depth limit whose text is within the byte limit. */
  lemma DumpsIff(c: Codec, v: Value)
    ensures Dumps(c, v).Ok? <==>
            && Supported(v) && EncodeDepth(v) <= c.maxDepth && Encode(v, 0, c.maxDepth).Ok?
            && JsonBytes(Envelope(c.scope, Encode(v, 0, c.maxDepth).value)) <= c.maxPayloadBytes
  {
    EncodesIff(v, 0, c.maxDepth);
  }

  /** A text of one scope is not loaded under another, whatever the limits. */
  lemma OtherScopesRefuse(c: Codec, other: Codec, v: Value)
    requires Dumps(c, v).Ok? && other.scope != c.scope
    ensures Loaded(other, Dumps(c, v).value).None?
  {
    var payload := Encode(v, 0, c.maxDepth).value;
    NamesDiffer();
    EnvelopeReads(Member("_blackbase_envelope", JString(Plain(ENVELOPE_VERSION))), Member("payload", payload),
                  Member("scope", JString(Plain(c.scope))), Member("serializer", JString(Plain("safe"))));
  }

  /** Only a text that names this envelope, this scope and this serializer is loaded. */
  lemma LoadedNamesItself(c: Codec, raw: Json)
    requires Loaded(c, raw).Some?
    ensures raw.JObject? && JsonBytes(raw) <= c.maxPayloadBytes
    ensures Lookup(raw.members, "_blackbase_envelope") == Some(JString(Plain(ENVELOPE_VERSION)))
    ensures Lookup(raw.members, "scope") == Some(JString(Plain(c.scope)))
    ensures Lookup(raw.members, "serializer") == Some(JString(Plain("safe")))
    ensures Lookup(raw.members, "payload").Some?
  {
  }

  // ---- The default limits ----------------------------------------------------------------

  function Zeros(n: nat): (vs: seq<Value>)
    ensures |vs| == n
  {
    if n == 0 then [] else Zeros(n - 1) + [VInt(0)]
  }

  lemma {:induction false} ZerosAreCounted(n: nat)
    ensures ArraysFitAll(Zeros(n)) && CountAll(Zeros(n)) == n
  {
    if n > 0 {
      ZerosAreCounted(n - 1);
      assert Zeros(n)[..n - 1] == Zeros(n - 1);
    }
  }

  lemma {:induction false} ZerosSurvive(n: nat)
    ensures SurvivesAll(Zeros(n))
  {
    if n > 0 {
      ZerosSurvive(n - 1);
      SurvivesSnoc(Zeros(n - 1), VInt(0));
    }
  }

  lemma SurvivesSnoc(vs: seq<Value>, v: Value)
    ensures SurvivesAll(vs + [v]) <==> SurvivesAll(vs) && Survives(v)
  {
    assert (vs + [v])[..|vs|] == vs;
  }

  lemma {:induction false} ZerosEncode(n: nat, maxDepth: nat)
    requires maxDepth > 0
    ensures EncodeAll(Zeros(n), 1, maxDepth).Ok? && ItemsBytes(EncodeAll(Zeros(n), 1, maxDepth).value) == n
  {
    if n > 0 {
      ZerosEncode(n - 1, maxDepth);
      assert Zeros(n)[..n - 1] == Zeros(n - 1);
      assert Encode(Zeros(n)[n - 1], 1, maxDepth) == Ok(JInt(0));
      var js := EncodeAll(Zeros(n), 1, maxDepth).value;
      assert js[..n - 1] == EncodeAll(Zeros(n - 1), 1, maxDepth).value;
    }
  }

  lemma TooManyNodesAreRefused(c: Codec, v: Value)
    requires ArraysFit(v) && Survives(v) && Dumps(c, v).Ok? && NodeCount(v) > c.maxNodes
    ensures Loaded(c, Dumps(c, v).value).None?
  {
    DumpedPayload(c, v);
    SurvivorIsBuiltIn(v);
    DecoderCountsEachNode(v);
  }

  lemma EncodesList(vs: seq<Value>, maxDepth: nat)
    requires EncodeAll(vs, 1, maxDepth).Ok?
    ensures Encode(VCollection(List, "list", vs), 0, maxDepth) ==
              Ok(Tagged("list", [Member("items", JArray(EncodeAll(vs, 1, maxDepth).value))]))
  {
  }

  /** A list of as many zeros as there may be nodes is written when the bytes suffice, and then refused. */
  lemma LongListIsWrittenButRefused(c: Codec, n: nat)
    requires c.maxNodes <= n && 2 * n + 2000 + 6 * |c.scope| <= c.maxPayloadBytes && c.maxDepth > 0
    ensures var v := VCollection(List, "list", Zeros(n));
            ArraysFit(v) && Survives(v) && Dumps(c, v).Ok?
            && Loaded(c, Dumps(c, v).value).None?
  {
    var v := VCollection(List, "list", Zeros(n));
    ZerosAreCounted(n);
    ZerosSurvive(n);
    ZerosEncode(n, c.maxDepth);
    EncodesList(Zeros(n), c.maxDepth);
    ListBytes(EncodeAll(Zeros(n), 1, c.maxDepth).value);
    EnvelopeBytes(c, Encode(v, 0, c.maxDepth).value);
    TooManyNodesAreRefused(c, v);
  }

  /** With the default limits this happens to every list of one to four million zeros. */
  lemma DefaultLimitsRefuseTheirOwnOutput(n: nat)
    requires 1_000_000 <= n <= 4_000_000
    ensures var v := VCollection(List, "list", Zeros(n));
            ArraysFit(v) && Survives(v) && Dumps(DEFAULT, v).Ok?
            && Loaded(DEFAULT, Dumps(DEFAULT, v).value).None?
  {
    assert |"generic"| == 7;
    LongListIsWrittenButRefused(DEFAULT, n);
  }

  lemma ListBytes(js: seq<Json>)
    ensures JsonBytes(Tagged("list", [Member("items", JArray(js))])) <= 1000 + ItemsBytes(js) + |js|
  {
    var first, second := Member(VALUE_TAG, JString(Plain("list"))), Member("items", JArray(js));
    MembersBytesSnoc([], first);
    MembersBytesSnoc([first], second);
    assert [] + [first] == [first];
    ShortText(VALUE_TAG);
    ShortText("list");
    ShortText("items");
  }

  lemma EnvelopeBytes(c: Codec, payload: Json)
    ensures JsonBytes(Envelope(c.scope, payload)) <= 1000 + 6 * |c.scope| + JsonBytes(payload)
  {
    var a, b := Member("_blackbase_envelope", JString(Plain(ENVELOPE_VERSION))), Member("payload", payload);
    var d, e := Member("scope", JString(Plain(c.scope))), Member("serializer", JString(Plain("safe")));
    FourMembersBytes(a, b, d, e);
    TextMemberBytes(a.name, ENVELOPE_VERSION);
    ShortText(b.name);
    TextMemberBytes(d.name, c.scope);
    TextMemberBytes(e.name, "safe");
  }
}
