/**
 Recursive isolation of context values.  Values live in a heap of objects that may be shared and
 may form cycles; `Denotes` says which tree an object unfolds to.  The detacher walks the object
 graph with the set of containers on its current path and allocates the copy as it goes.  Two kinds
 of objects it hands on without looking inside: the item of a NumPy scalar, and an instance of a
 subclass of a scalar class.
 */
module ContextDetacher {
  import opened Outcomes
  import opened Graphs

  type Ref = nat

  datatype Kind = Mapping | List | Tuple | Set | FrozenSet

  // The children of a mapping are its keys and values in turn.  `item` is what the scalar's `item()`
  // returns: a plain scalar, or for a structured scalar the tuple of its fields, which may be any objects.
  // `hashable` says whether Python can hash what is handed on.
  datatype Object =
    | Scalar(value: int)
    | ScalarSubclass(value: int, hashable: bool)
    | Bytes(data: seq<int>)
    | NumpyScalar(item: Ref, hashable: bool, mutable: bool)
    | Buffer(data: seq<int>)
    | NdArray(data: seq<int>, holdsObjects: bool)
    | StateReference(content: int)
    | DataReference(content: int, metadata: Ref)
    | Container(kind: Kind, children: seq<Ref>)
    | Foreign(mutable: bool)

  type Heap = map<Ref, Object>

  datatype Value =
    | VScalar(value: int)
    | VBytes(data: seq<int>)
    | VPassed(passed: Ref, hashable: bool)
    | VArray(data: seq<int>)
    | VState(content: int)
    | VData(content: int, metadata: Value)
    | VContainer(kind: Kind, children: seq<Value>)

  datatype Failure = Cyclic | Unsupported | ObjectArray | Unhashable

  /** The objects that the walk visits from `o`. */
  function Children(o: Object): set<Ref> {
    match o
    case DataReference(_, metadata) => {metadata}
    case Container(_, children) => set c | c in children
    case _ => {}
  }

  function GraphOf(h: Heap): Graph<Ref> {
    map r | r in h :: Children(h[r])
  }

  /** No dangling references; the metadata of a data reference is a mapping. */
  ghost predicate WellFormed(h: Heap) {
    forall r <- h ::
      && Children(h[r]) <= h.Keys
      && (h[r].NumpyScalar? ==> h[r].item in h && (h[h[r].item].Scalar? ==> h[r].hashable))
      && (h[r].DataReference? ==> h[h[r].metadata].Container? && h[h[r].metadata].kind.Mapping?)
      && (h[r].Container? && h[r].kind.Mapping? ==> |h[r].children| % 2 == 0)
  }

  /** Whether the child at position `i` is hashed when the container is rebuilt. */
  predicate IsHashed(kind: Kind, i: nat) {
    match kind
    case Mapping => i % 2 == 0
    case Set => true
    case FrozenSet => true
    case _ => false
  }

  predicate Hashable(v: Value) {
    match v
    case VScalar(_) => true
    case VBytes(_) => true
    case VPassed(_, hashable) => hashable
    case VContainer(kind, children) =>
      (kind.Tuple? || kind.FrozenSet?) && forall i | 0 <= i < |children| :: Hashable(children[i])
    case _ => false
  }

  /** Every mapping key and set item of the tree is hashable. */
  ghost predicate Clean(v: Value) {
    match v
    case VData(_, metadata) => Clean(metadata)
    case VContainer(kind, children) =>
      forall i | 0 <= i < |children| :: Clean(children[i]) && (IsHashed(kind, i) ==> Hashable(children[i]))
    case _ => true
  }

  /** What the walk hands on at `r` instead of copying it. */
  function PassedOn(h: Heap, r: Ref): Option<Ref>
    requires r in h
  {
    match h[r]
    case NumpyScalar(item, _, _) => Some(item)
    case ScalarSubclass(_, _) => Some(r)
    case _ => None
  }

  /** The object `r` unfolds to the tree `v`, whose leaves include the objects that the walk hands on. */
  ghost predicate Denotes(h: Heap, r: Ref, v: Value)
    decreases v
  {
    r in h &&
    match v
    case VScalar(x) => h[r] == Scalar(x)
    case VBytes(b) => h[r] == Bytes(b) || h[r] == Buffer(b)
    case VPassed(passed, hashable) =>
      && (h[r].NumpyScalar? || h[r].ScalarSubclass?)
      && PassedOn(h, r) == Some(passed) && h[r].hashable == hashable
    case VArray(b) => h[r] == NdArray(b, false)
    case VState(content) => h[r] == StateReference(content)
    case VData(content, metadata) =>
      h[r].DataReference? && h[r].content == content && Denotes(h, h[r].metadata, metadata)
    case VContainer(kind, children) =>
      && h[r].Container? && h[r].kind == kind
      && |h[r].children| == |children|
      && forall i | 0 <= i < |children| :: Denotes(h, h[r].children[i], children[i])
  }

  /**
   The object `c` is a copy of the tree `v`: no array, reference or container of it is one of the
   `taboo` objects, and a leaf that was handed on is the very same object.
   */
  ghost predicate IsCopy(h: Heap, c: Ref, v: Value, taboo: set<Ref>)
    decreases v
  {
    c in h &&
    match v
    case VScalar(x) => h[c] == Scalar(x)
    case VBytes(b) => h[c] == Bytes(b)
    case VPassed(passed, _) => c == passed
    case VArray(b) => h[c] == NdArray(b, false) && c !in taboo
    case VState(content) => h[c] == StateReference(content) && c !in taboo
    case VData(content, metadata) =>
      h[c].DataReference? && h[c].content == content && c !in taboo && IsCopy(h, h[c].metadata, metadata, taboo)
    case VContainer(kind, children) =>
      && h[c].Container? && h[c].kind == kind && c !in taboo
      && |h[c].children| == |children|
      && forall i | 0 <= i < |children| :: IsCopy(h, h[c].children[i], children[i], taboo)
  }

  ghost predicate Extends(larger: Heap, h: Heap) {
    forall r <- h :: r in larger && larger[r] == h[r]
  }

  lemma {:induction false} CopyStays(h: Heap, larger: Heap, c: Ref, v: Value, taboo: set<Ref>)
    requires Extends(larger, h) && IsCopy(h, c, v, taboo)
    ensures IsCopy(larger, c, v, taboo)
    decreases v
  {
    match v
    case VData(_, metadata) => CopyStays(h, larger, h[c].metadata, metadata, taboo);
    case VContainer(_, children) =>
      forall i | 0 <= i < |children| ensures IsCopy(larger, h[c].children[i], children[i], taboo) {
        CopyStays(h, larger, h[c].children[i], children[i], taboo);
      }
    case _ =>
  }

  // ---- What stands in the way of a copy --------------------------------------------------

  ghost predicate Reachable(h: Heap, r: Ref, x: Ref) {
    exists n: nat :: Reaches(GraphOf(h), r, x, n)
  }

  ghost predicate HasUnhashableChild(h: Heap, x: Ref) {
    x in h && h[x].Container? &&
    exists i, w | 0 <= i < |h[x].children| ::
      IsHashed(h[x].kind, i) && Denotes(h, h[x].children[i], w) && !Hashable(w)
  }

  /** The obstacle that a failure reports, seen from `r`. */
  ghost predicate Obstructed(h: Heap, r: Ref, f: Failure) {
    match f
    case Cyclic => ReachesCycle(GraphOf(h), r)
    case Unsupported => exists x :: Reachable(h, r, x) && x in h && h[x].Foreign?
    case ObjectArray => exists x :: Reachable(h, r, x) && x in h && h[x].NdArray? && h[x].holdsObjects
    case Unhashable => exists x :: Reachable(h, r, x) && HasUnhashableChild(h, x)
  }

  ghost predicate IsChild(h: Heap, r: Ref, c: Ref) {
    r in h && c in Children(h[r])
  }

  lemma ReachableThroughChild(h: Heap, r: Ref, c: Ref, x: Ref)
    requires IsChild(h, r, c) && Reachable(h, c, x)
    ensures Reachable(h, r, x)
  {
    var n: nat :| Reaches(GraphOf(h), c, x, n);
    assert Reaches(GraphOf(h), r, x, n + 1);
  }

  lemma ReachableSelf(h: Heap, r: Ref)
    ensures Reachable(h, r, r)
  {
    assert Reaches(GraphOf(h), r, r, 0);
  }

  lemma ObstructedThroughChild(h: Heap, r: Ref, c: Ref, f: Failure)
    requires IsChild(h, r, c) && Obstructed(h, c, f)
    ensures Obstructed(h, r, f)
  {
    match f
    case Cyclic =>
      var x: Ref, n: nat :| Reaches(GraphOf(h), c, x, n) && OnCycle(GraphOf(h), x);
      assert Reaches(GraphOf(h), r, x, n + 1);
    case Unsupported =>
      var x :| Reachable(h, c, x) && x in h && h[x].Foreign?;
      ReachableThroughChild(h, r, c, x);
    case ObjectArray =>
      var x :| Reachable(h, c, x) && x in h && h[x].NdArray? && h[x].holdsObjects;
      ReachableThroughChild(h, r, c, x);
    case Unhashable =>
      var x :| Reachable(h, c, x) && HasUnhashableChild(h, x);
      ReachableThroughChild(h, r, c, x);
  }

  // ---- A denoted object has no obstacle --------------------------------------------------

  function Max(a: nat, b: nat): nat {
    if a < b then b else a
  }

  function Height(v: Value): nat {
    match v
    case VData(_, metadata) => 1 + Height(metadata)
    case VContainer(_, children) => 1 + Heights(children)
    case _ => 0
  }

  function Heights(vs: seq<Value>): (m: nat)
    ensures forall v <- vs :: Height(v) <= m
  {
    if vs == [] then 0 else Max(Height(vs[0]), Heights(vs[1..]))
  }

  /** Every object reachable from a denoted one is denoted by a subtree. */
  lemma {:induction false} SubtreeOf(h: Heap, r: Ref, v: Value, x: Ref, n: nat) returns (w: Value)
    requires Denotes(h, r, v) && Reaches(GraphOf(h), r, x, n)
    ensures Denotes(h, x, w) && Height(w) + n <= Height(v)
    ensures Clean(v) ==> Clean(w)
    decreases v
  {
    if n == 0 {
      w := v;
    } else {
      var c: Ref :| c in GraphOf(h)[r] && Reaches(GraphOf(h), c, x, n - 1);
      match v
      case VData(_, metadata) => w := SubtreeOf(h, c, metadata, x, n - 1);
      case VContainer(_, children) =>
        var i :| 0 <= i < |h[r].children| && h[r].children[i] == c;
        assert children[i] in children;
        w := SubtreeOf(h, c, children[i], x, n - 1);
      case _ =>
    }
  }

  lemma {:induction false} TreeIsUnique(h: Heap, r: Ref, v: Value, w: Value)
    requires Denotes(h, r, v) && Denotes(h, r, w)
    ensures v == w
    decreases v
  {
    match v
    case VData(_, metadata) => TreeIsUnique(h, h[r].metadata, metadata, w.metadata);
    case VContainer(_, children) =>
      forall i | 0 <= i < |children| ensures children[i] == w.children[i] {
        TreeIsUnique(h, h[r].children[i], children[i], w.children[i]);
      }
    case _ =>
  }

  /** A cycle can be walked at least `least` steps. */
  lemma {:induction false} CycleRepeats(g: Graph<Ref>, x: Ref, m: nat, least: nat) returns (n: nat)
    requires m > 0 && Reaches(g, x, x, m)
    ensures n >= least && Reaches(g, x, x, n)
  {
    n := 0;
    if least > 0 {
      n := CycleRepeats(g, x, m, least - 1);
      ReachesIsTransitive(g, x, x, x, m, n);
      n := m + n;
    }
  }

  lemma DenotedIsOffCycle(h: Heap, x: Ref, w: Value, m: nat)
    requires Denotes(h, x, w) && m > 0
    ensures !Reaches(GraphOf(h), x, x, m)
  {
    if Reaches(GraphOf(h), x, x, m) {
      var n := CycleRepeats(GraphOf(h), x, m, Height(w) + 1);
      var deeper := SubtreeOf(h, x, w, x, n);
    }
  }

  lemma DenotedIsAcyclic(h: Heap, r: Ref, v: Value)
    requires Denotes(h, r, v)
    ensures !ReachesCycle(GraphOf(h), r)
  {
    forall x: Ref, n: nat | Reaches(GraphOf(h), r, x, n) ensures !OnCycle(GraphOf(h), x) {
      var w := SubtreeOf(h, r, v, x, n);
      forall m: nat | m > 0 ensures !Reaches(GraphOf(h), x, x, m) {
        DenotedIsOffCycle(h, x, w, m);
      }
    }
  }

  /** An object that unfolds to a clean tree is obstructed by nothing. */
  lemma DenotedIsUnobstructed(h: Heap, r: Ref, v: Value, f: Failure)
    requires Denotes(h, r, v) && Clean(v)
    ensures !Obstructed(h, r, f)
  {
    DenotedIsAcyclic(h, r, v);
    forall x | Reachable(h, r, x)
      ensures x in h && !h[x].Foreign? && !(h[x].NdArray? && h[x].holdsObjects) && !HasUnhashableChild(h, x)
    {
      var n: nat :| Reaches(GraphOf(h), r, x, n);
      var w := SubtreeOf(h, r, v, x, n);
      if h[x].Container? {
        forall i, u | 0 <= i < |h[x].children| && IsHashed(h[x].kind, i) && Denotes(h, h[x].children[i], u)
          ensures Hashable(u)
        {
          TreeIsUnique(h, h[x].children[i], u, w.children[i]);
        }
      }
    }
  }

  // ---- What a copy shares with the input -------------------------------------------------

  /** All objects that `o` refers to, visited by the walk or not. */
  function Referents(o: Object): set<Ref> {
    Children(o) + if o.NumpyScalar? then {o.item} else {}
  }

  function ReferenceGraph(h: Heap): Graph<Ref> {
    map r | r in h :: Referents(h[r])
  }

  ghost predicate LeadsTo(h: Heap, r: Ref, x: Ref) {
    exists n: nat :: Reaches(ReferenceGraph(h), r, x, n)
  }

  /** The objects that can be changed in place; those that merely hold such an object do not count. */
  predicate Mutable(o: Object) {
    match o
    case ScalarSubclass(_, _) => true
    case NumpyScalar(_, _, mutable) => mutable
    case Buffer(_) => true
    case NdArray(_, _) => true
    case Container(kind, _) => kind.Mapping? || kind.List? || kind.Set?
    case Foreign(mutable) => mutable
    case _ => false
  }

  ghost predicate SharesMutable(input: Heap, heap: Heap, c: Ref) {
    exists x :: LeadsTo(heap, c, x) && x in input && Mutable(input[x])
  }

  ghost predicate LeadsToMutable(h: Heap, p: Ref) {
    exists x :: LeadsTo(h, p, x) && x in h && Mutable(h[x])
  }

  /** The walk from `r` visits an object at which it hands on something that leads to a mutable object. */
  ghost predicate PassesMutable(h: Heap, r: Ref) {
    exists s :: Reachable(h, r, s) && s in h && PassedOn(h, s).Some? && LeadsToMutable(h, PassedOn(h, s).value)
  }

  /** New objects are never referred to by old ones. */
  lemma {:induction false} LeadsWithin(h: Heap, larger: Heap, r: Ref, x: Ref, n: nat)
    requires WellFormed(h) && Extends(larger, h) && r in h
    ensures Reaches(ReferenceGraph(larger), r, x, n) <==> Reaches(ReferenceGraph(h), r, x, n)
    decreases n
  {
    if n > 0 {
      assert ReferenceGraph(larger)[r] == ReferenceGraph(h)[r] == Referents(h[r]);
      forall c <- Referents(h[r])
        ensures Reaches(ReferenceGraph(larger), c, x, n - 1) <==> Reaches(ReferenceGraph(h), c, x, n - 1)
      {
        LeadsWithin(h, larger, c, x, n - 1);
      }
    }
  }

  /** The first step of a path from `c`. */
  lemma FirstStep(h: Heap, c: Ref, x: Ref, n: nat) returns (d: Ref)
    requires c in h && x != c && Reaches(ReferenceGraph(h), c, x, n)
    ensures n > 0 && d in Referents(h[c]) && Reaches(ReferenceGraph(h), d, x, n - 1)
  {
    d :| d in ReferenceGraph(h)[c] && Reaches(ReferenceGraph(h), d, x, n - 1);
  }

  /** The walk from `r` visits `s` and hands on something that leads to `x` in the new heap. */
  ghost predicate PassesTowards(input: Heap, heap: Heap, r: Ref, s: Ref, x: Ref) {
    Reachable(input, r, s) && s in input && PassedOn(input, s).Some? && LeadsTo(heap, PassedOn(input, s).value, x)
  }

  /** Nothing but what was handed on leads from a copy to a mutable object of the input. */
  lemma {:induction false} SharedWasPassed(input: Heap, heap: Heap, r: Ref, c: Ref, v: Value, x: Ref, n: nat)
      returns (s: Ref)
    requires Denotes(input, r, v) && IsCopy(heap, c, v, input.Keys)
    requires Reaches(ReferenceGraph(heap), c, x, n) && x in input && x in heap && Mutable(heap[x])
    ensures PassesTowards(input, heap, r, s, x)
    decreases v
  {
    if v.VPassed? {
      ReachableSelf(input, r);
      s := r;
    } else {
      var copied := FirstStep(heap, c, x, n);
      var d := if v.VData? then input[r].metadata else r;
      if v.VData? {
        s := SharedWasPassed(input, heap, d, copied, v.metadata, x, n - 1);
      } else {
        var i :| 0 <= i < |heap[c].children| && heap[c].children[i] == copied;
        d := input[r].children[i];
        s := SharedWasPassed(input, heap, d, copied, v.children[i], x, n - 1);
      }
      ReachableThroughChild(input, r, d, s);
    }
  }

  lemma LeadsThroughReferent(h: Heap, c: Ref, d: Ref, x: Ref)
    requires c in h && d in Referents(h[c]) && LeadsTo(h, d, x)
    ensures LeadsTo(h, c, x)
  {
    var n: nat :| Reaches(ReferenceGraph(h), d, x, n);
    assert Reaches(ReferenceGraph(h), c, x, n + 1);
  }

  /** A copy leads to every object that the walk handed on. */
  lemma {:induction false} PassedIsShared(input: Heap, heap: Heap, r: Ref, c: Ref, v: Value, s: Ref, n: nat)
    requires Denotes(input, r, v) && IsCopy(heap, c, v, input.Keys)
    requires Reaches(GraphOf(input), r, s, n) && s in input && PassedOn(input, s).Some?
    ensures LeadsTo(heap, c, PassedOn(input, s).value)
    decreases v
  {
    if n == 0 {
      assert Reaches(ReferenceGraph(heap), c, c, 0);
    } else {
      var d: Ref :| d in GraphOf(input)[r] && Reaches(GraphOf(input), d, s, n - 1);
      match v
      case VData(_, metadata) =>
        PassedIsShared(input, heap, d, heap[c].metadata, metadata, s, n - 1);
        LeadsThroughReferent(heap, c, heap[c].metadata, PassedOn(input, s).value);
      case VContainer(_, children) =>
        var i :| 0 <= i < |input[r].children| && input[r].children[i] == d;
        PassedIsShared(input, heap, d, heap[c].children[i], children[i], s, n - 1);
        LeadsThroughReferent(heap, c, heap[c].children[i], PassedOn(input, s).value);
      case _ =>
    }
  }

  lemma SharesWhatIsPassed(input: Heap, heap: Heap, r: Ref, c: Ref, v: Value)
    requires WellFormed(input) && Extends(heap, input)
    requires Denotes(input, r, v) && IsCopy(heap, c, v, input.Keys)
    ensures SharesMutable(input, heap, c) <==> PassesMutable(input, r)
  {
    if SharesMutable(input, heap, c) {
      var x :| LeadsTo(heap, c, x) && x in input && Mutable(input[x]);
      var n: nat :| Reaches(ReferenceGraph(heap), c, x, n);
      var s := SharedWasPassed(input, heap, r, c, v, x, n);
      var p := PassedOn(input, s).value;
      var m: nat :| Reaches(ReferenceGraph(heap), p, x, m);
      LeadsWithin(input, heap, p, x, m);
      assert LeadsTo(input, p, x);
    }
    if PassesMutable(input, r) {
      var s :| Reachable(input, r, s) && s in input && PassedOn(input, s).Some?
               && LeadsToMutable(input, PassedOn(input, s).value);
      var p := PassedOn(input, s).value;
      var n: nat :| Reaches(GraphOf(input), r, s, n);
      PassedIsShared(input, heap, r, c, v, s, n);
      var x :| LeadsTo(input, p, x) && x in input && Mutable(input[x]);
      var m: nat :| Reaches(ReferenceGraph(input), p, x, m);
      LeadsWithin(input, heap, p, x, m);
      var k: nat :| Reaches(ReferenceGraph(heap), c, p, k);
      ReachesIsTransitive(ReferenceGraph(heap), c, p, x, k, m);
    }
  }

  /** A structured scalar whose one field holds a list and whose other field holds an object of a foreign class. */
  function RecordHeap(): Heap {
    map[0 := Container(List, []), 1 := Foreign(true), 2 := Container(Tuple, [0, 1]), 3 := NumpyScalar(2, false, true)]
  }

  /** Nothing obstructs it, and its list and its foreign object are handed on. */
  lemma StructuredScalarIsHandedOn(f: Failure)
    ensures WellFormed(RecordHeap()) && !Obstructed(RecordHeap(), 3, f)
    ensures PassedOn(RecordHeap(), 3) == Some(2) && PassesMutable(RecordHeap(), 3)
    ensures LeadsTo(RecordHeap(), 2, 0) && LeadsTo(RecordHeap(), 2, 1)
  {
    RecordHeapIsWellFormed();
    var h := RecordHeap();
    DenotedIsUnobstructed(h, 3, VPassed(2, false), f);
    ReachableSelf(h, 3);
    LeadsInOneStep(h, 2, 0);
    LeadsInOneStep(h, 2, 1);
    assert LeadsToMutable(h, 2);
  }

  lemma RecordHeapIsWellFormed()
    ensures WellFormed(RecordHeap())
    ensures Referents(RecordHeap()[2]) == {0, 1} && RecordHeap().Keys == {0, 1, 2, 3}
  {
    assert Children(Container(Tuple, [0, 1])) == {0, 1} by {
      assert 0 in [0, 1] && 1 in [0, 1];
    }
  }

  lemma LeadsInOneStep(h: Heap, c: Ref, x: Ref)
    requires c in h && x in Referents(h[c])
    ensures LeadsTo(h, c, x)
  {
    assert Reaches(ReferenceGraph(h), x, x, 0);
    LeadsThroughReferent(h, c, x, x);
  }

  /** A record within a record, and a date as the item of a scalar: an immutable object of a foreign class. */
  function NestedHeap(): Heap {
    map[0 := Container(List, []), 1 := Container(Tuple, [0]), 2 := NumpyScalar(1, false, false),
        3 := Container(Tuple, [2]), 4 := NumpyScalar(3, false, false),
        5 := Foreign(false), 6 := NumpyScalar(5, true, false)]
  }

  /** The list of the inner record is shared through the outer one, and the date is nothing to worry about. */
  lemma OnlyMutableItemsMatter()
    ensures WellFormed(NestedHeap()) && PassesMutable(NestedHeap(), 4) && !PassesMutable(NestedHeap(), 6)
  {
    NestedHeapIsWellFormed();
    InnerListIsShared();
    DateLeadsNowhere();
  }

  lemma NestedHeapIsWellFormed()
    ensures WellFormed(NestedHeap())
  {
    assert Children(Container(Tuple, [0])) == {0} && Children(Container(Tuple, [2])) == {2} by {
      assert 0 in [0] && 2 in [2];
    }
  }

  lemma InnerListIsShared()
    ensures PassesMutable(NestedHeap(), 4)
  {
    OuterLeadsToList(NestedHeap());
    ReachableSelf(NestedHeap(), 4);
    assert LeadsToMutable(NestedHeap(), 3);
    assert PassedOn(NestedHeap(), 4) == Some(3);
  }

  lemma OuterLeadsToList(h: Heap)
    requires 1 in h && h[1] == Container(Tuple, [0]) && 2 in h && h[2] == NumpyScalar(1, false, false)
    requires 3 in h && h[3] == Container(Tuple, [2])
    ensures LeadsTo(h, 3, 0)
  {
    assert 0 in [0] && 2 in [2];
    LeadsInOneStep(h, 1, 0);
    LeadsThroughReferent(h, 2, 1, 0);
    LeadsThroughReferent(h, 3, 2, 0);
  }

  lemma DateLeadsNowhere()
    ensures !PassesMutable(NestedHeap(), 6)
  {
    var h := NestedHeap();
    forall s, n: nat | Reaches(GraphOf(h), 6, s, n) ensures s == 6 {
      assert GraphOf(h)[6] == {};
    }
    forall x, n: nat | Reaches(ReferenceGraph(h), 5, x, n) ensures x == 5 {
      assert ReferenceGraph(h)[5] == {};
    }
  }

  /** Keys of mappings and members of sets are hashed, values of mappings and items of lists and tuples are not. */
  lemma ValuesNeedNoHash(kind: Kind, key: Ref, value: Ref, h: Heap)
    requires key in h && h[key].Scalar? && value in h && h[value] == Container(List, [])
    ensures forall r | r in h && h[r] == Container(kind, [key, value]) ::
              if kind.Set? || kind.FrozenSet? then Obstructed(h, r, Unhashable) else forall f :: !Obstructed(h, r, f)
    ensures forall r | r in h && h[r] == Container(kind, [value, key]) ::
              if kind.Mapping? || kind.Set? || kind.FrozenSet? then Obstructed(h, r, Unhashable)
              else forall f :: !Obstructed(h, r, f)
  {
    var list := VContainer(List, []);
    var scalar := VScalar(h[key].value);
    forall r | r in h && h[r] == Container(kind, [key, value])
      ensures if kind.Set? || kind.FrozenSet? then Obstructed(h, r, Unhashable) else forall f :: !Obstructed(h, r, f)
    {
      PairIsHashed(h, r, kind, [key, value], [scalar, list], 1);
    }
    forall r | r in h && h[r] == Container(kind, [value, key])
      ensures if kind.Mapping? || kind.Set? || kind.FrozenSet? then Obstructed(h, r, Unhashable)
              else forall f :: !Obstructed(h, r, f)
    {
      PairIsHashed(h, r, kind, [value, key], [list, scalar], 0);
    }
  }

  lemma PairIsHashed(h: Heap, r: Ref, kind: Kind, children: seq<Ref>, vs: seq<Value>, list: nat)
    requires r in h && h[r] == Container(kind, children) && |children| == |vs| == 2 && list < 2
    requires Denotes(h, children[0], vs[0]) && Denotes(h, children[1], vs[1])
    requires vs[list] == VContainer(List, []) && vs[1 - list].VScalar?
    ensures if IsHashed(kind, list) then Obstructed(h, r, Unhashable) else forall f :: !Obstructed(h, r, f)
  {
    if IsHashed(kind, list) {
      UnhashableChildObstructs(h, r, list, vs[list]);
    } else {
      forall i | 0 <= i < 2 ensures Clean(vs[i]) && (IsHashed(kind, i) ==> Hashable(vs[i])) {
        assert i != list ==> i == 1 - list;
      }
      var v := VContainer(kind, vs);
      assert Denotes(h, r, v) && Clean(v);
      forall f ensures !Obstructed(h, r, f) {
        DenotedIsUnobstructed(h, r, v, f);
      }
    }
  }

  // ---- The detacher ----------------------------------------------------------------------

  ghost predicate ProperlyReaches(g: Graph<Ref>, a: Ref, r: Ref) {
    exists n: nat :: n > 0 && Reaches(g, a, r, n)
  }

  /** Every container on the current path leads to `r`. */
  ghost predicate IsPathTo(h: Heap, active: set<Ref>, r: Ref) {
    active <= h.Keys && forall a <- active :: ProperlyReaches(GraphOf(h), a, r)
  }

  lemma PathContinues(h: Heap, active: set<Ref>, r: Ref, c: Ref)
    requires IsPathTo(h, active, r) && IsChild(h, r, c)
    ensures IsPathTo(h, active, c) && IsPathTo(h, active + {r}, c)
  {
    var g := GraphOf(h);
    assert Reaches(g, c, c, 0);
    assert Reaches(g, r, c, 1);
    forall a <- active ensures ProperlyReaches(g, a, c) {
      var n: nat :| n > 0 && Reaches(g, a, r, n);
      ReachesIsTransitive(g, a, r, c, n, 1);
    }
  }

  lemma ActiveMeansCycle(h: Heap, active: set<Ref>, r: Ref)
    requires IsPathTo(h, active, r) && r in active
    ensures Obstructed(h, r, Cyclic)
  {
    assert OnCycle(GraphOf(h), r);
    assert Reaches(GraphOf(h), r, r, 0);
  }

  /** `copies` are clean, unshared copies of the first children of the container `o`. */
  ghost predicate AreCopies(input: Heap, heap: Heap, o: Object, copies: seq<Ref>, vs: seq<Value>)
    requires o.Container?
  {
    && |copies| == |vs| <= |o.children|
    && forall j | 0 <= j < |vs| ::
         && Denotes(input, o.children[j], vs[j]) && Clean(vs[j])
         && IsCopy(heap, copies[j], vs[j], input.Keys)
         && (IsHashed(o.kind, j) ==> Hashable(vs[j]))
  }

  lemma CopiesSurvive(input: Heap, heap: Heap, larger: Heap, o: Object, copies: seq<Ref>, vs: seq<Value>)
    requires o.Container? && AreCopies(input, heap, o, copies, vs) && Extends(larger, heap)
    ensures AreCopies(input, larger, o, copies, vs)
  {
    forall j | 0 <= j < |vs| ensures IsCopy(larger, copies[j], vs[j], input.Keys) {
      CopyStays(heap, larger, copies[j], vs[j], input.Keys);
    }
  }

  lemma OneMoreCopy(input: Heap, heap: Heap, o: Object, copies: seq<Ref>, vs: seq<Value>, copy: Ref, v: Value)
    requires o.Container? && AreCopies(input, heap, o, copies, vs) && |vs| < |o.children|
    requires Denotes(input, o.children[|vs|], v) && Clean(v) && IsCopy(heap, copy, v, input.Keys)
    requires IsHashed(o.kind, |vs|) ==> Hashable(v)
    ensures AreCopies(input, heap, o, copies + [copy], vs + [v])
  {}

  ghost predicate AllHashable(vs: seq<Value>) {
    forall j | 0 <= j < |vs| :: Hashable(vs[j])
  }

  lemma AllHashableSnoc(vs: seq<Value>, v: Value)
    ensures AllHashable(vs + [v]) <==> AllHashable(vs) && Hashable(v)
  {
    if AllHashable(vs + [v]) {
      assert (vs + [v])[|vs|] == v;
      assert forall j | 0 <= j < |vs| :: vs[j] == (vs + [v])[j];
    }
  }

  /** A new container over copies of all children is a copy of the container. */
  lemma CopiesMakeContainer(input: Heap, heap: Heap, r: Ref, copies: seq<Ref>, vs: seq<Value>, copy: Ref)
    requires r in input && input[r].Container? && AreCopies(input, heap, input[r], copies, vs)
    requires |vs| == |input[r].children|
    requires copy in heap && heap[copy] == Container(input[r].kind, copies) && copy !in input
    ensures var v := VContainer(input[r].kind, vs);
            && Denotes(input, r, v) && Clean(v) && IsCopy(heap, copy, v, input.Keys)
            && (Hashable(v) <==> (input[r].kind.Tuple? || input[r].kind.FrozenSet?) && AllHashable(vs))
  {}

  lemma UnhashableChildObstructs(h: Heap, r: Ref, i: nat, w: Value)
    requires r in h && h[r].Container? && i < |h[r].children| && IsHashed(h[r].kind, i)
    requires Denotes(h, h[r].children[i], w) && !Hashable(w)
    ensures Obstructed(h, r, Unhashable)
  {
    ReachableSelf(h, r);
    assert HasUnhashableChild(h, r);
  }

  class Detacher {
    ghost const input: Heap
    var heap: Heap
    var next: Ref
    var active: set<Ref>

    ghost predicate Valid()
      reads this
    {
      WellFormed(input) && Extends(heap, input) && forall r <- heap :: r < next
    }

    constructor (h: Heap, next: Ref)
      requires WellFormed(h) && forall r <- h :: r < next
      ensures Valid() && input == heap == h && active == {}
    {
      this.input := h;
      this.heap := h;
      this.next := next;
      this.active := {};
    }

    method Allocate(o: Object) returns (r: Ref)
      requires Valid()
      modifies this`heap, this`next
      ensures Valid() && r !in old(heap) && heap == old(heap)[r := o]
    {
      r := next;
      heap := heap[r := o];
      next := next + 1;
    }

    /**
     Copy the value `r`.  The path set is restored on every exit.  A success is a copy of the tree
     that the input unfolds to; a failure names an obstacle that the walk from `r` visits.
     */
    method DetachValue(r: Ref) returns (result: Result<Ref, Failure>, hashable: bool, ghost v: Value)
      requires Valid() && r in input && IsPathTo(input, active, r)
      modifies this
      ensures Valid() && active == old(active) && Extends(heap, old(heap))
      ensures result.Ok? ==>
                && Denotes(input, r, v) && Clean(v) && hashable == Hashable(v)
                && IsCopy(heap, result.value, v, input.Keys)
      ensures result.Err? ==> Obstructed(input, r, result.error)
      decreases |input.Keys - active|, 1
    {
      ReachableSelf(input, r);
      var o := heap[r];
      hashable := false;
      v := VScalar(0);
      match o
      case Scalar(x) =>
        return Ok(r), true, VScalar(x);
      case Bytes(b) =>
        return Ok(r), true, VBytes(b);
      case ScalarSubclass(_, b) =>
        return Ok(r), b, VPassed(r, b);
      case NumpyScalar(item, b, _) =>
        return Ok(item), b, VPassed(item, b);
      case Buffer(b) =>
        var copy := Allocate(Bytes(b));
        return Ok(copy), true, VBytes(b);
      case DataReference(content, metadata) =>
        assert IsChild(input, r, metadata);
        PathContinues(input, active, r, metadata);
        var inner, _, w := DetachContainer(metadata);
        if inner.Err? {
          ObstructedThroughChild(input, r, metadata, inner.error);
          return inner, false, v;
        }
        ghost var before := heap;
        var copy := Allocate(DataReference(content, inner.value));
        CopyStays(before, heap, inner.value, w, input.Keys);
        return Ok(copy), false, VData(content, w);
      case StateReference(content) =>
        var copy := Allocate(StateReference(content));
        return Ok(copy), false, VState(content);
      case NdArray(data, holdsObjects) =>
        if holdsObjects {
          return Err(ObjectArray), false, v;
        }
        var copy := Allocate(NdArray(data, false));
        return Ok(copy), false, VArray(data);
      case Container(_, _) =>
        result, hashable, v := DetachContainer(r);
      case Foreign(_) =>
        return Err(Unsupported), false, v;
    }

    method DetachContainer(r: Ref) returns (result: Result<Ref, Failure>, hashable: bool, ghost v: Value)
      requires Valid() && r in input && input[r].Container? && IsPathTo(input, active, r)
      modifies this
      ensures Valid() && active == old(active) && Extends(heap, old(heap))
      ensures result.Ok? ==>
                && Denotes(input, r, v) && Clean(v) && hashable == Hashable(v)
                && IsCopy(heap, result.value, v, input.Keys)
      ensures result.Err? ==> Obstructed(input, r, result.error)
      decreases |input.Keys - active|, 0, 1
    {
      if r in active {
        ActiveMeansCycle(input, active, r);
        return Err(Cyclic), false, VScalar(0);
      }
      MeasureDecreases(input, active, r);
      active := active + {r};
      var kind := heap[r].kind;
      var copies, allHashable, vs := DetachChildren(r, old(active));
      active := active - {r};
      assert active == old(active);
      if copies.Err? {
        return Err(copies.error), false, VScalar(0);
      }
      var copy;
      copy, v := Rebuild(r, kind, copies.value, vs);
      result, hashable := Ok(copy), (kind.Tuple? || kind.FrozenSet?) && allHashable;
    }

    /** Allocate the container over the copies of its children. */
    method Rebuild(ghost r: Ref, kind: Kind, copies: seq<Ref>, ghost vs: seq<Value>) returns (copy: Ref, ghost v: Value)
      requires Valid() && r in input && input[r].Container? && input[r].kind == kind
      requires |copies| == |input[r].children| && AreCopies(input, heap, input[r], copies, vs)
      modifies this`heap, this`next
      ensures Valid() && Extends(heap, old(heap))
      ensures Denotes(input, r, v) && Clean(v) && IsCopy(heap, copy, v, input.Keys)
      ensures Hashable(v) <==> (kind.Tuple? || kind.FrozenSet?) && AllHashable(vs)
    {
      ghost var before := heap;
      copy := Allocate(Container(kind, copies));
      CopiesSurvive(input, before, heap, input[r], copies, vs);
      CopiesMakeContainer(input, heap, r, copies, vs, copy);
      v := VContainer(kind, vs);
    }

    /** Copy the children of `r` in order, hashing those that become keys or set items. */
    method DetachChildren(r: Ref, ghost outer: set<Ref>)
      returns (result: Result<seq<Ref>, Failure>, allHashable: bool, ghost vs: seq<Value>)
      requires Valid() && r in input && input[r].Container?
      requires r !in outer && active == outer + {r} && IsPathTo(input, outer, r)
      modifies this
      ensures Valid() && active == old(active) && Extends(heap, old(heap))
      ensures result.Ok? ==>
                && |result.value| == |input[r].children|
                && AreCopies(input, heap, input[r], result.value, vs)
                && (allHashable <==> AllHashable(vs))
      ensures result.Err? ==> Obstructed(input, r, result.error)
      decreases |input.Keys - active|, 2
    {
      var kind, children := heap[r].kind, heap[r].children;
      var copies: seq<Ref> := [];
      allHashable, vs := true, [];
      for i := 0 to |children|
        invariant |copies| == i && Valid() && active == old(active) && Extends(heap, old(heap))
        invariant AreCopies(input, heap, input[r], copies, vs)
        invariant allHashable <==> AllHashable(vs)
      {
        assert IsChild(input, r, children[i]);
        PathContinues(input, outer, r, children[i]);
        ghost var before := heap;
        var copy, hashable, w := DetachValue(children[i]);
        if copy.Err? {
          ObstructedThroughChild(input, r, children[i], copy.error);
          return Err(copy.error), false, vs;
        }
        if IsHashed(kind, i) && !hashable {
          UnhashableChildObstructs(input, r, i, w);
          return Err(Unhashable), false, vs;
        }
        CopiesSurvive(input, before, heap, input[r], copies, vs);
        OneMoreCopy(input, heap, input[r], copies, vs, copy.value, w);
        AllHashableSnoc(vs, w);
        copies, vs := copies + [copy.value], vs + [w];
        allHashable := allHashable && hashable;
      }
      result := Ok(copies);
    }

    /**
     The public entry.  On any finite object graph it ends; it succeeds exactly when nothing that the
     walk visits stands in the way.  Then the copy shares something mutable with the input exactly
     when the walk handed on an object that leads to something mutable.
     */
    method DetachContextValue(r: Ref) returns (result: Result<Ref, Failure>, ghost v: Value)
      requires Valid() && r in input && active == {}
      modifies this
      ensures Valid() && active == {} && Extends(heap, old(heap))
      ensures result.Ok? <==> forall f :: !Obstructed(input, r, f)
      ensures result.Ok? ==> Denotes(input, r, v) && IsCopy(heap, result.value, v, input.Keys)
      ensures result.Ok? ==> (SharesMutable(input, heap, result.value) <==> PassesMutable(input, r))
      ensures result.Err? ==> Obstructed(input, r, result.error)
    {
      var hashable;
      result, hashable, v := DetachValue(r);
      if result.Ok? {
        SharesWhatIsPassed(input, heap, r, result.value, v);
        forall f ensures !Obstructed(input, r, f) {
          DenotedIsUnobstructed(input, r, v, f);
        }
      }
    }
  }

  lemma MeasureDecreases(h: Heap, active: set<Ref>, r: Ref)
    requires r in h && r !in active
    ensures |h.Keys - (active + {r})| < |h.Keys - active|
  {
    assert h.Keys - active == (h.Keys - (active + {r})) + {r};
  }
}
