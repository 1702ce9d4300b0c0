/**
 The safe value codec: tagged JSON for typed values, with depth, node and byte limits.  The encoder
 checks depth and size; the decoder checks depth, nodes and size.
 */
module SafeCodec {
  import opened Outcomes
  import opened Json

  // ---- Values ----------------------------------------------------------------------------

  datatype Float = Finite(decimal: string) | NotANumber | Infinity | NegativeInfinity

  datatype CollectionKind = List | Tuple | Set | FrozenSet

  datatype Protocol = UnknownState | DataRef | StateRef

  /**
   Python values as trees.  A collection carries the name of its class, which is that of a subclass
   for, say, a named tuple; a foreign value is one of any other class.
   */
  datatype Value =
    | VNone
    | VBool(b: bool)
    | VInt(i: int)
    | VText(text: Text)
    | VFloat(f: Float)
    | VComplex(re: Float, im: Float)
    | VNumpyScalar(item: Value)
    | VBytes(mutable: bool, data: seq<int>)
    | VArray(dtype: Dtype, shape: seq<int>, data: seq<int>, contiguous: bool, subclass: bool)
    | VProtocol(protocol: Protocol, payload: Value)
    | VMapping(items: seq<Pair>)
    | VCollection(kind: CollectionKind, typeName: string, elements: seq<Value>)
    | VForeign

  datatype Pair = Pair(key: Value, value: Value)

  datatype CodecError = DepthLimit | NodeLimit | TooLarge | UnsupportedValue | InvalidWire

  const VALUE_TAG := "__blackbase_value__"

  /** What the tag of a wire object announces. */
  datatype Tag =
    | FloatTag
    | ComplexTag
    | BytesTag
    | ArrayTag
    | ProtocolTag(protocol: Protocol)
    | MappingTag
    | CollectionTag(kind: CollectionKind)
    | NoTag

  function KindName(kind: CollectionKind): string {
    match kind
    case List => "list"
    case Tuple => "tuple"
    case Set => "set"
    case FrozenSet => "frozenset"
  }

  function TagName(tag: Tag): string
    requires !tag.NoTag?
  {
    match tag
    case FloatTag => "float"
    case ComplexTag => "complex"
    case BytesTag => "bytes"
    case ArrayTag => "ndarray"
    case ProtocolTag(UnknownState) => "unknown_state"
    case ProtocolTag(DataRef) => "data_ref"
    case ProtocolTag(StateRef) => "state_ref"
    case MappingTag => "mapping"
    case CollectionTag(kind) => KindName(kind)
  }

  function TagNamed(name: string): Tag {
    if name == "float" then FloatTag
    else if name == "complex" then ComplexTag
    else if name == "bytes" then BytesTag
    else if name == "ndarray" then ArrayTag
    else if name == "unknown_state" then ProtocolTag(UnknownState)
    else if name == "data_ref" then ProtocolTag(DataRef)
    else if name == "state_ref" then ProtocolTag(StateRef)
    else if name == "mapping" then MappingTag
    else if name == "list" then CollectionTag(List)
    else if name == "tuple" then CollectionTag(Tuple)
    else if name == "set" then CollectionTag(Set)
    else if name == "frozenset" then CollectionTag(FrozenSet)
    else NoTag
  }

  lemma TagIsFound(tag: Tag)
    requires !tag.NoTag?
    ensures TagNamed(TagName(tag)) == tag
  {
    assert |"list"| == 4 && |"tuple"| == 5 && |"set"| == 3 && |"frozenset"| == 9;
    assert |"float"| == 5 && |"complex"| == 7 && |"bytes"| == 5 && |"ndarray"| == 7 && |"mapping"| == 7;
    assert |"unknown_state"| == 13 && |"data_ref"| == 8 && |"state_ref"| == 9;
    assert "list"[0] == 'l' && "tuple"[0] == 't' && "float"[0] == 'f' && "bytes"[0] == 'b';
    assert "complex"[0] == 'c' && "ndarray"[0] == 'n' && "mapping"[0] == 'm';
    assert "frozenset"[0] == 'f' && "state_ref"[0] == 's';
  }

  lemma NameOfTag(name: string)
    requires !TagNamed(name).NoTag?
    ensures TagName(TagNamed(name)) == name
  {
  }

  predicate Hashable(v: Value)
    decreases v
  {
    match v
    case VArray(_, _, _, _, _) => false
    case VProtocol(_, _) => false
    case VMapping(_) => false
    case VForeign => false
    case VBytes(mutable, _) => !mutable
    case VNumpyScalar(item) => Hashable(item)
    case VCollection(kind, _, elements) =>
      (kind.Tuple? || kind.FrozenSet?) && forall i | 0 <= i < |elements| :: Hashable(elements[i])
    case _ => true
  }

  function Product(shape: seq<int>): int {
    if shape == [] then 1 else Product(shape[..|shape| - 1]) * shape[|shape| - 1]
  }

  // ---- Tagged wire objects ---------------------------------------------------------------

  function Tagged(tag: string, members: seq<Member>): Json {
    JObject([Member(VALUE_TAG, JString(Plain(tag)))] + members)
  }

  function TagOf(members: seq<Member>): Tag {
    match Lookup(members, VALUE_TAG)
    case Some(JString(Plain(name))) => TagNamed(name)
    case _ => NoTag
  }

  lemma LookupOne(tag: string, a: Member, name: string)
    requires a.name != VALUE_TAG
    ensures TagOf(Tagged(tag, [a]).members) == TagNamed(tag)
    ensures name != VALUE_TAG ==>
              Lookup(Tagged(tag, [a]).members, name) == if name == a.name then Some(a.value) else None
  {
    var all := Tagged(tag, [a]).members;
    assert all[..1] == [Member(VALUE_TAG, JString(Plain(tag)))];
    assert all[..1][..0] == [];
  }

  // ---- Encoder ---------------------------------------------------------------------------

  function FloatWire(f: Float): Json {
    match f
    case Finite(decimal) => JFloat(decimal)
    case NotANumber => Tagged("float", [Member("value", JString(Plain("nan")))])
    case Infinity => Tagged("float", [Member("value", JString(Plain("inf")))])
    case NegativeInfinity => Tagged("float", [Member("value", JString(Plain("-inf")))])
  }

  function ShapeWire(shape: seq<int>): Json {
    JArray(seq(|shape|, i requires 0 <= i < |shape| => JInt(shape[i])))
  }

  /** The element type that the name alone denotes. */
  function Named(dtype: Dtype): Dtype {
    dtype.(detail := None)
  }

  /** Making an array contiguous gives it at least one dimension. */
  function ContiguousShape(shape: seq<int>): seq<int> {
    if shape == [] then [1] else shape
  }

  function ArrayWire(dtype: Dtype, shape: seq<int>, data: seq<int>): Json {
    Tagged("ndarray", [Member("data", JString(Base64Of(data))), Member("dtype", JString(NameOf(Named(dtype)))),
                       Member("shape", ShapeWire(ContiguousShape(shape)))])
  }

  function Encode(v: Value, depth: nat, maxDepth: nat): (r: Result<Json, CodecError>)
    ensures r.Ok? ==> !r.value.JArray?
    decreases v, 1
  {
    if depth > maxDepth then Err(DepthLimit)
    else
      match v
      case VNone => Ok(JNull)
      case VBool(b) => Ok(JBool(b))
      case VInt(i) => Ok(JInt(i))
      case VText(text) => Ok(JString(text))
      case VFloat(f) => Ok(FloatWire(f))
      case VComplex(re, im) =>
        if depth + 1 > maxDepth then Err(DepthLimit)
        else Ok(Tagged("complex", [Member("imag", FloatWire(im)), Member("real", FloatWire(re))]))
      case VNumpyScalar(item) => Encode(item, depth + 1, maxDepth)
      case VBytes(_, data) => Ok(Tagged("bytes", [Member("data", JString(Base64Of(data)))]))
      case VArray(dtype, shape, data, _, _) =>
        if dtype.holdsObjects then Err(UnsupportedValue) else Ok(ArrayWire(dtype, shape, data))
      case VProtocol(protocol, payload) =>
        (match Encode(payload, depth + 1, maxDepth)
         case Err(e) => Err(e)
         case Ok(j) => Ok(Tagged(TagName(ProtocolTag(protocol)), [Member("payload", j)])))
      case VMapping(items) =>
        (match EncodePairs(items, depth + 1, maxDepth)
         case Err(e) => Err(e)
         case Ok(js) => Ok(Tagged("mapping", [Member("items", JArray(js))])))
      case VCollection(_, typeName, elements) =>
        (match EncodeAll(elements, depth + 1, maxDepth)
         case Err(e) => Err(e)
         case Ok(js) => Ok(Tagged(typeName, [Member("items", JArray(js))])))
      case VForeign => Err(UnsupportedValue)
  }

  function EncodeAll(vs: seq<Value>, depth: nat, maxDepth: nat): (r: Result<seq<Json>, CodecError>)
    ensures r.Ok? ==> |r.value| == |vs| && forall x <- r.value :: !x.JArray?
    decreases vs, 0
  {
    if vs == [] then Ok([])
    else
      var init := EncodeAll(vs[..|vs| - 1], depth, maxDepth);
      if init.Err? then init
      else
        match Encode(vs[|vs| - 1], depth, maxDepth)
        case Err(e) => Err(e)
        case Ok(j) => Ok(init.value + [j])
  }

  function EncodePairs(ps: seq<Pair>, depth: nat, maxDepth: nat): (r: Result<seq<Json>, CodecError>)
    ensures r.Ok? ==> |r.value| == |ps|
    decreases ps, 0
  {
    if ps == [] then Ok([])
    else
      var init := EncodePairs(ps[..|ps| - 1], depth, maxDepth);
      if init.Err? then init
      else
        var last := ps[|ps| - 1];
        assert last.key < last && last.value < last;
        match Encode(last.key, depth, maxDepth)
        case Err(e) => Err(e)
        case Ok(k) =>
          match Encode(last.value, depth, maxDepth)
          case Err(e) => Err(e)
          case Ok(j) => Ok(init.value + [JArray([k, j])])
  }

  // ---- What a wire value means -----------------------------------------------------------

  function FloatOf(marker: Option<Json>): Option<Float> {
    if marker == Some(JString(Plain("nan"))) then Some(NotANumber)
    else if marker == Some(JString(Plain("inf"))) then Some(Infinity)
    else if marker == Some(JString(Plain("-inf"))) then Some(NegativeInfinity)
    else None
  }

  predicate IsShape(items: seq<Json>) {
    forall i | 0 <= i < |items| :: items[i].JInt? && items[i].i >= 0
  }

  function ShapeOf(items: seq<Json>): seq<int>
    requires IsShape(items)
  {
    seq(|items|, i requires 0 <= i < |items| => items[i].i)
  }

  function ArrayOf(members: seq<Member>): Option<Value> {
    match (Lookup(members, "dtype"), Lookup(members, "shape"), Lookup(members, "data"))
    case (Some(JString(NameOf(dtype))), Some(JArray(items)), Some(JString(Base64Of(data)))) =>
      if dtype.detail.Some? || dtype.holdsObjects || dtype.itemSize == 0 || !IsShape(items)
         || |data| != Product(ShapeOf(items)) * dtype.itemSize
      then None
      else Some(VArray(dtype, ShapeOf(items), data, true, false))
    case _ => None
  }

  /**
   A wire value with its tags read: a leaf and its value (none when malformed), or the parts that
   the decoder visits in turn.
   */
  datatype Wire =
    | Leaf(value: Option<Value>)
    | ComplexParts(re: Wire, im: Wire)
    | ProtocolPayload(protocol: Protocol, payload: Wire)
    | MappingItems(entries: seq<Entry>)
    | CollectionItems(kind: CollectionKind, elements: seq<Wire>)

  datatype Entry = Malformed | Entry(key: Wire, value: Wire)

  predicate IsPair(j: Json) {
    j.JArray? && |j.items| == 2
  }

  function Parse(j: Json): Wire
    decreases j, 1
  {
    match j
    case JNull => Leaf(Some(VNone))
    case JBool(b) => Leaf(Some(VBool(b)))
    case JInt(i) => Leaf(Some(VInt(i)))
    case JFloat(decimal) => Leaf(Some(VFloat(Finite(decimal))))
    case JString(text) => Leaf(Some(VText(text)))
    case JArray(_) => Leaf(None)
    case JObject(members) =>
      match TagOf(members)
      case NoTag => Leaf(None)
      case FloatTag =>
        (match FloatOf(Lookup(members, "value")) case None => Leaf(None) case Some(f) => Leaf(Some(VFloat(f))))
      case ComplexTag =>
        (match (Lookup(members, "real"), Lookup(members, "imag"))
         case (Some(re), Some(im)) => ComplexParts(Parse(re), Parse(im))
         case _ => Leaf(None))
      case BytesTag =>
        (match Lookup(members, "data")
         case Some(JString(Base64Of(data))) => Leaf(Some(VBytes(false, data)))
         case _ => Leaf(None))
      case ArrayTag => Leaf(ArrayOf(members))
      case ProtocolTag(protocol) =>
        (match Lookup(members, "payload")
         case Some(p) => ProtocolPayload(protocol, Parse(p))
         case None => Leaf(None))
      case MappingTag =>
        (match Lookup(members, "items")
         case Some(JArray(items)) => MappingItems(ParsePairs(items))
         case _ => Leaf(None))
      case CollectionTag(kind) =>
        (match Lookup(members, "items")
         case Some(JArray(items)) => CollectionItems(kind, ParseAll(items))
         case _ => Leaf(None))
  }

  function ParseAll(js: seq<Json>): (ws: seq<Wire>)
    ensures |ws| == |js|
    decreases js, 0
  {
    if js == [] then [] else ParseAll(js[..|js| - 1]) + [Parse(js[|js| - 1])]
  }

  function ParsePairs(js: seq<Json>): (es: seq<Entry>)
    ensures |es| == |js|
    decreases js, 0
  {
    if js == [] then []
    else
      var last := js[|js| - 1];
      var entry := if IsPair(last) then Entry(Parse(last.items[0]), Parse(last.items[1])) else Malformed;
      ParsePairs(js[..|js| - 1]) + [entry]
  }

  /** Set one key of a dictionary in insertion order. */
  function Insert(items: seq<Pair>, key: Value, value: Value): (r: seq<Pair>)
    ensures |items| <= |r| <= |items| + 1
    ensures |r| == |items| + 1 ==> r == items + [Pair(key, value)]
  {
    if items == [] then [Pair(key, value)]
    else if items[0].key == key then [Pair(key, value)] + items[1..]
    else [items[0]] + Insert(items[1..], key, value)
  }

  function InsertAll(pairs: seq<Pair>): (r: seq<Pair>)
    ensures |r| <= |pairs|
    ensures |r| == |pairs| ==> r == pairs
  {
    if pairs == [] then []
    else Insert(InsertAll(pairs[..|pairs| - 1]), pairs[|pairs| - 1].key, pairs[|pairs| - 1].value)
  }

  function Unique(vs: seq<Value>): (r: seq<Value>)
    ensures |r| <= |vs|
    ensures |r| == |vs| ==> r == vs
  {
    if vs == [] then []
    else
      var init, last := Unique(vs[..|vs| - 1]), vs[|vs| - 1];
      if last in init then init else init + [last]
  }

  predicate AllHashable(vs: seq<Value>) {
    forall i | 0 <= i < |vs| :: Hashable(vs[i])
  }

  function CollectionOf(kind: CollectionKind, elements: seq<Value>): Option<Value> {
    if kind.List? || kind.Tuple? then Some(VCollection(kind, KindName(kind), elements))
    else if AllHashable(elements) then Some(VCollection(kind, KindName(kind), Unique(elements)))
    else None
  }

  function ComplexOf(re: Value, im: Value): Option<Value> {
    if re.VFloat? && im.VFloat? then Some(VComplex(re.f, im.f)) else None
  }

  function ProtocolValue(protocol: Protocol, payload: Value): Option<Value> {
    if payload.VMapping? then Some(VProtocol(protocol, payload)) else None
  }

  /** The value denoted by a wire value, whatever the limits; nothing when it is malformed. */
  function Meaning(w: Wire): Option<Value>
    decreases w, 1
  {
    match w
    case Leaf(value) => value
    case ComplexParts(re, im) =>
      (match (Meaning(re), Meaning(im)) case (Some(x), Some(y)) => ComplexOf(x, y) case _ => None)
    case ProtocolPayload(protocol, payload) =>
      (match Meaning(payload) case Some(v) => ProtocolValue(protocol, v) case None => None)
    case MappingItems(entries) =>
      (match MeaningPairs(entries) case Some(ps) => Some(VMapping(InsertAll(ps))) case None => None)
    case CollectionItems(kind, elements) =>
      (match MeaningAll(elements) case Some(vs) => CollectionOf(kind, vs) case None => None)
  }

  function MeaningAll(ws: seq<Wire>): (r: Option<seq<Value>>)
    ensures r.Some? ==> |r.value| == |ws|
    decreases ws, 0
  {
    if ws == [] then Some([])
    else
      match (MeaningAll(ws[..|ws| - 1]), Meaning(ws[|ws| - 1]))
      case (Some(init), Some(v)) => Some(init + [v])
      case _ => None
  }

  function MeaningEntry(e: Entry): Option<Pair>
    decreases e, 2
  {
    match e
    case Malformed => None
    case Entry(key, value) =>
      match (Meaning(key), Meaning(value))
      case (Some(k), Some(v)) => if Hashable(k) then Some(Pair(k, v)) else None
      case _ => None
  }

  function MeaningPairs(es: seq<Entry>): (r: Option<seq<Pair>>)
    ensures r.Some? ==> |r.value| == |es|
    decreases es, 0
  {
    if es == [] then Some([])
    else
      match (MeaningPairs(es[..|es| - 1]), MeaningEntry(es[|es| - 1]))
      case (Some(init), Some(pair)) => Some(init + [pair])
      case _ => None
  }

  // ---- Nodes and depth visited by the decoder --------------------------------------------

  function Max(a: nat, b: nat): nat {
    if a < b then b else a
  }

  /** How many wire values a decoder without limits visits at most. */
  function Nodes(w: Wire): (n: nat)
    ensures n >= 1
    decreases w, 1
  {
    match w
    case Leaf(_) => 1
    case ComplexParts(re, im) => 1 + Nodes(re) + Nodes(im)
    case ProtocolPayload(_, payload) => 1 + Nodes(payload)
    case MappingItems(entries) => 1 + NodesPairs(entries)
    case CollectionItems(_, elements) => 1 + NodesAll(elements)
  }

  function NodesAll(ws: seq<Wire>): nat
    decreases ws, 0
  {
    if ws == [] then 0 else NodesAll(ws[..|ws| - 1]) + Nodes(ws[|ws| - 1])
  }

  function NodesEntry(e: Entry): nat
    decreases e, 2
  {
    if e.Entry? then Nodes(e.key) + Nodes(e.value) else 0
  }

  function NodesPairs(es: seq<Entry>): nat
    decreases es, 0
  {
    if es == [] then 0 else NodesPairs(es[..|es| - 1]) + NodesEntry(es[|es| - 1])
  }

  /** How far below its start a decoder without limits descends at most. */
  function Height(w: Wire): nat
    decreases w, 1
  {
    match w
    case Leaf(_) => 0
    case ComplexParts(re, im) => 1 + Max(Height(re), Height(im))
    case ProtocolPayload(_, payload) => 1 + Height(payload)
    case MappingItems(entries) => HeightPairs(entries)
    case CollectionItems(_, elements) => HeightAll(elements)
  }

  /** The height of a list of children above their parent: zero without children. */
  function HeightAll(ws: seq<Wire>): nat
    decreases ws, 0
  {
    if ws == [] then 0 else Max(HeightAll(ws[..|ws| - 1]), 1 + Height(ws[|ws| - 1]))
  }

  function HeightEntry(e: Entry): nat
    decreases e, 2
  {
    if e.Entry? then 1 + Max(Height(e.key), Height(e.value)) else 0
  }

  function HeightPairs(es: seq<Entry>): nat
    decreases es, 0
  {
    if es == [] then 0 else Max(HeightPairs(es[..|es| - 1]), HeightEntry(es[|es| - 1]))
  }
}
