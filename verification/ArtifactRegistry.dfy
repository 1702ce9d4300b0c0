/**
 The artifact registry of a stage runner: references by name, and bindings that add the publication
 receipt.  Merging a child result adds names; it stops at a name published with another reference.
 */
module ArtifactRegistry {
  import opened Outcomes

  type Ref = string

  type Receipt = string

  datatype Binding = Binding(ref: Ref, publication: Receipt)

  datatype Registry = Registry(refs: map<string, Ref>, bindings: map<string, Binding>)

  /** One entry of a child result; entries without a publication are not merged. */
  datatype Artifact = Artifact(name: string, ref: Ref, publication: Option<Receipt>)

  datatype Merged = Merged(registry: Registry, conflict: Option<string>)

  function Qualified(call: string, name: string): string {
    call + "." + name
  }

  /** The references are exactly the view of the bindings. */
  predicate IsView(g: Registry) {
    g.refs.Keys == g.bindings.Keys && forall k <- g.refs :: g.bindings[k].ref == g.refs[k]
  }

  /** Every name of `before` still denotes the same reference. */
  predicate Grows(before: Registry, after: Registry) {
    forall k <- before.refs :: k in after.refs && after.refs[k] == before.refs[k]
  }

  /** Equal up to publication receipts. */
  predicate SameRefs(g: Registry, h: Registry) {
    g.refs == h.refs
  }

  function MergeOne(g: Registry, call: string, a: Artifact): Merged {
    if a.publication.None? then Merged(g, None)
    else
      var q := Qualified(call, a.name);
      if q in g.refs && g.refs[q] != a.ref then Merged(g, Some(q))
      else
        var binding := Binding(a.ref, a.publication.value);
        var h := Registry(g.refs[q := a.ref], g.bindings[q := binding]);
        if a.name in h.refs then Merged(h, None)
        else Merged(Registry(h.refs[a.name := a.ref], h.bindings[a.name := binding]), None)
  }

  /** Merge a result entry by entry; a conflict keeps what was merged before it. */
  function Merge(g: Registry, call: string, artifacts: seq<Artifact>): Merged {
    if artifacts == [] then Merged(g, None)
    else
      var m := Merge(g, call, artifacts[..|artifacts| - 1]);
      if m.conflict.Some? then m else MergeOne(m.registry, call, artifacts[|artifacts| - 1])
  }

  lemma {:induction false} MergeGrows(g: Registry, call: string, artifacts: seq<Artifact>)
    ensures Grows(g, Merge(g, call, artifacts).registry)
    ensures IsView(g) ==> IsView(Merge(g, call, artifacts).registry)
  {
    if artifacts != [] {
      MergeGrows(g, call, artifacts[..|artifacts| - 1]);
    }
  }

  /** The entry is found under its qualified name, and something under its own name. */
  predicate IsPublished(g: Registry, call: string, a: Artifact) {
    a.publication.Some? ==>
      a.name in g.refs && Qualified(call, a.name) in g.refs && g.refs[Qualified(call, a.name)] == a.ref
  }

  lemma MergeOnePublishes(g: Registry, call: string, a: Artifact)
    requires MergeOne(g, call, a).conflict.None?
    ensures IsPublished(MergeOne(g, call, a).registry, call, a) && Grows(g, MergeOne(g, call, a).registry)
    ensures forall k <- MergeOne(g, call, a).registry.refs :: k !in g.refs ==>
              a.publication.Some? && (k == a.name || k == Qualified(call, a.name))
              && MergeOne(g, call, a).registry.refs[k] == a.ref
  {
  }

  /** Without a conflict every published entry is found; earlier names keep their references. */
  lemma {:induction false} MergePublishes(g: Registry, call: string, artifacts: seq<Artifact>, i: nat)
    requires Merge(g, call, artifacts).conflict.None? && i < |artifacts|
    ensures IsPublished(Merge(g, call, artifacts).registry, call, artifacts[i])
  {
    var n := |artifacts| - 1;
    var m := Merge(g, call, artifacts[..n]).registry;
    MergeOnePublishes(m, call, artifacts[n]);
    if i < n {
      MergePublishes(g, call, artifacts[..n], i);
    }
  }

  /** Nothing but published entries is added, under one of their two names and with their reference. */
  lemma {:induction false} MergeAddsOnlyPublished(g: Registry, call: string, artifacts: seq<Artifact>, k: string)
      returns (i: nat)
    requires Merge(g, call, artifacts).conflict.None? && k !in g.refs && k in Merge(g, call, artifacts).registry.refs
    ensures i < |artifacts| && artifacts[i].publication.Some?
    ensures k == artifacts[i].name || k == Qualified(call, artifacts[i].name)
    ensures Merge(g, call, artifacts).registry.refs[k] == artifacts[i].ref
  {
    var n := |artifacts| - 1;
    var m := Merge(g, call, artifacts[..n]).registry;
    MergeOnePublishes(m, call, artifacts[n]);
    if k in m.refs {
      i := MergeAddsOnlyPublished(g, call, artifacts[..n], k);
    } else {
      i := n;
    }
  }

  predicate SameEntries(a: seq<Artifact>, b: seq<Artifact>) {
    |a| == |b| && forall i | 0 <= i < |a| ::
      a[i].name == b[i].name && a[i].ref == b[i].ref && a[i].publication.Some? == b[i].publication.Some?
  }

  /** Receipts never influence which references are registered, nor where a merge stops. */
  lemma {:induction false} MergeIgnoresReceipts(
    g: Registry, h: Registry, call: string, a: seq<Artifact>, b: seq<Artifact>)
    requires SameRefs(g, h) && SameEntries(a, b)
    ensures SameRefs(Merge(g, call, a).registry, Merge(h, call, b).registry)
    ensures Merge(g, call, a).conflict == Merge(h, call, b).conflict
  {
    if a != [] {
      MergeIgnoresReceipts(g, h, call, a[..|a| - 1], b[..|b| - 1]);
    }
  }

  // ---- Conflicts and receipts ------------------------------------------------------------

  /** The entry clashes with what its qualified name already denotes. */
  predicate Clashes(g: Registry, call: string, a: Artifact) {
    var q := Qualified(call, a.name);
    a.publication.Some? && q in g.refs && g.refs[q] != a.ref
  }

  /** A merge stops at the first entry that clashes with what was registered before it, and nowhere else. */
  lemma {:induction false} MergeStopsIff(g: Registry, call: string, artifacts: seq<Artifact>)
    ensures var m := Merge(g, call, artifacts);
            && (m.conflict.None? <==> forall i | 0 <= i < |artifacts| ::
                  !Clashes(Merge(g, call, artifacts[..i]).registry, call, artifacts[i]))
            && (m.conflict.Some? ==> exists i | 0 <= i < |artifacts| ::
                  && Clashes(Merge(g, call, artifacts[..i]).registry, call, artifacts[i])
                  && m.conflict.value == Qualified(call, artifacts[i].name)
                  && m.registry == Merge(g, call, artifacts[..i]).registry
                  && Merge(g, call, artifacts[..i]).conflict.None?)
  {
    if artifacts != [] {
      var n := |artifacts| - 1;
      var init := artifacts[..n];
      MergeStopsIff(g, call, init);
      forall i | 0 <= i < n ensures init[..i] == artifacts[..i] && init[i] == artifacts[i] {
      }
      var before := Merge(g, call, init);
      if before.conflict.Some? {
        var i :| 0 <= i < n && Clashes(Merge(g, call, init[..i]).registry, call, init[i])
                 && before.conflict.value == Qualified(call, init[i].name)
                 && before.registry == Merge(g, call, init[..i]).registry
                 && Merge(g, call, init[..i]).conflict.None?;
        assert Clashes(Merge(g, call, artifacts[..i]).registry, call, artifacts[i]);
      }
    }
  }

  /** Under its qualified name an entry is found with its own receipt, unless a later entry took that name. */
  lemma {:induction false} MergeKeepsReceipts(g: Registry, call: string, artifacts: seq<Artifact>, i: nat)
    requires IsView(g) && Merge(g, call, artifacts).conflict.None? && i < |artifacts|
    requires artifacts[i].publication.Some?
    requires forall j | i < j < |artifacts| ::
               artifacts[j].publication.Some? ==>
                 Qualified(call, artifacts[j].name) != Qualified(call, artifacts[i].name)
    ensures var q := Qualified(call, artifacts[i].name); var after := Merge(g, call, artifacts).registry;
            q in after.bindings && after.bindings[q] == Binding(artifacts[i].ref, artifacts[i].publication.value)
  {
    var n := |artifacts| - 1;
    MergeGrows(g, call, artifacts[..n]);
    QualifiedIsLonger(call, artifacts[i].name);
    if i < n {
      MergeKeepsReceipts(g, call, artifacts[..n], i);
    }
  }

  lemma QualifiedIsLonger(call: string, name: string)
    ensures Qualified(call, name) != name
  {
    assert |Qualified(call, name)| == |call| + 1 + |name|;
  }
}
