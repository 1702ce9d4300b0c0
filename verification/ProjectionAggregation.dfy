/** Aggregating the components of one level, and what the statuses of a whole tree of levels say. */
module ProjectionAggregation {
  import opened Outcomes
  import opened Digests
  import opened RuntimeProjections

  // ---- Fields: the first writer wins -----------------------------------------------------

  datatype Merged<V> = Merged(fields: map<Utf8, V>, writers: map<Utf8, Utf8>)

  /** The given fields; a repeated key keeps its last value, and only declared sources are writers. */
  function InitialFields<V>(entries: seq<Entry<V>>, declared: map<Utf8, Utf8>): Merged<V> {
    if entries == [] then Merged(map[], map[])
    else
      var m, e := InitialFields(entries[..|entries| - 1], declared), entries[|entries| - 1];
      if e.key.None? || e.value.None? then m
      else
        var fields := m.fields[e.key.value := e.value.value];
        if e.key.value in declared then Merged(fields, m.writers[e.key.value := declared[e.key.value]])
        else Merged(fields, m.writers)
  }

  function AddEntries<V>(m: Merged<V>, entries: seq<Entry<V>>, sources: map<Utf8, Utf8>, name: Utf8): Merged<V> {
    if entries == [] then m
    else
      var n, e := AddEntries(m, entries[..|entries| - 1], sources, name), entries[|entries| - 1];
      if e.key.None? || e.value.None? || e.key.value in n.fields then n
      else
        Merged(n.fields[e.key.value := e.value.value],
               n.writers[e.key.value := if e.key.value in sources then sources[e.key.value] else name])
  }

  function AddChild<V>(m: Merged<V>, c: Component<V>): Merged<V> {
    match c.child
    case Plain(entries) => AddEntries(m, entries, map[], c.name)
    case Nested(_, _, sources, entries) => AddEntries(m, entries, sources, c.name)
    case _ => m
  }

  function MergedFields<V>(initial: seq<Entry<V>>, declared: map<Utf8, Utf8>, components: seq<Component<V>>)
    : Merged<V>
  {
    if components == [] then InitialFields(initial, declared)
    else AddChild(MergedFields(initial, declared, components[..|components| - 1]), components[|components| - 1])
  }

  /** Fields once written keep their value and their writer. */
  ghost predicate Keeps<V>(before: Merged<V>, after: Merged<V>) {
    && (forall k <- before.fields :: k in after.fields && after.fields[k] == before.fields[k])
    && (forall k <- before.fields :: k in before.writers <==> k in after.writers)
    && (forall k <- before.fields ::
          k in before.writers && k in after.writers ==> after.writers[k] == before.writers[k])
  }

  ghost predicate WritersAreFields<V>(m: Merged<V>) {
    m.writers.Keys <= m.fields.Keys
  }

  lemma {:induction false} EntriesKeep<V>(m: Merged<V>, entries: seq<Entry<V>>, sources: map<Utf8, Utf8>, name: Utf8)
    ensures Keeps(m, AddEntries(m, entries, sources, name))
    ensures WritersAreFields(m) ==> WritersAreFields(AddEntries(m, entries, sources, name))
  {
    if entries != [] {
      EntriesKeep(m, entries[..|entries| - 1], sources, name);
    }
  }

  lemma {:induction false} InitialWritersAreFields<V>(entries: seq<Entry<V>>, declared: map<Utf8, Utf8>)
    ensures WritersAreFields(InitialFields(entries, declared))
  {
    if entries != [] {
      InitialWritersAreFields(entries[..|entries| - 1], declared);
    }
  }

  lemma ChildKeeps<V>(m: Merged<V>, c: Component<V>)
    ensures Keeps(m, AddChild(m, c)) && (WritersAreFields(m) ==> WritersAreFields(AddChild(m, c)))
  {
    match c.child
    case Plain(entries) => EntriesKeep(m, entries, map[], c.name);
    case Nested(_, _, sources, entries) => EntriesKeep(m, entries, sources, c.name);
    case _ =>
  }

  /** A field keeps the value and the writer of its first contributor, however many components follow. */
  lemma {:induction false} FirstWriterWins<V>(initial: seq<Entry<V>>, declared: map<Utf8, Utf8>,
                                              components: seq<Component<V>>, m: nat)
    requires m <= |components|
    ensures Keeps(MergedFields(initial, declared, components[..m]), MergedFields(initial, declared, components))
    ensures WritersAreFields(MergedFields(initial, declared, components))
  {
    if components == [] {
      InitialWritersAreFields(initial, declared);
    } else if m == |components| {
      assert components[..m] == components;
      FirstWriterWins(initial, declared, components[..m - 1], m - 1);
      ChildKeeps(MergedFields(initial, declared, components[..m - 1]), components[m - 1]);
    } else {
      var init := components[..|components| - 1];
      assert init[..m] == components[..m];
      FirstWriterWins(initial, declared, init, m);
      ChildKeeps(MergedFields(initial, declared, init), components[|components| - 1]);
    }
  }

  // ---- Which fields there are, and whose -------------------------------------------------

  predicate Holds<V>(e: Entry<V>, k: Utf8) {
    e.key == Some(k) && e.value.Some?
  }

  predicate Offers<V>(entries: seq<Entry<V>>, k: Utf8) {
    exists j | 0 <= j < |entries| :: Holds(entries[j], k)
  }

  /** What a component contributes, which is nothing unless its projection could be read. */
  function Contribution<V>(c: Component<V>): seq<Entry<V>> {
    match c.child
    case Plain(entries) => entries
    case Nested(_, _, _, entries) => entries
    case _ => []
  }

  /** The source that a nested level declares for the field, else the component itself. */
  function SourceOf<V>(c: Component<V>, k: Utf8): Utf8 {
    if c.child.Nested? && k in c.child.sources then c.child.sources[k] else c.name
  }

  predicate IsFirstOffer<V>(entries: seq<Entry<V>>, k: Utf8, j: nat) {
    j < |entries| && Holds(entries[j], k) && !Offers(entries[..j], k)
  }

  predicate IsLastOffer<V>(entries: seq<Entry<V>>, k: Utf8, j: nat) {
    j < |entries| && Holds(entries[j], k) && forall i | j < i < |entries| :: !Holds(entries[i], k)
  }

  predicate AnyOffers<V>(components: seq<Component<V>>, k: Utf8) {
    exists i | 0 <= i < |components| :: Offers(Contribution(components[i]), k)
  }

  lemma OffersSnoc<V>(entries: seq<Entry<V>>, k: Utf8)
    requires entries != []
    ensures Offers(entries, k) <==> Offers(entries[..|entries| - 1], k) || Holds(entries[|entries| - 1], k)
  {
    if Offers(entries[..|entries| - 1], k) {
      var j :| 0 <= j < |entries| - 1 && Holds(entries[..|entries| - 1][j], k);
      assert Holds(entries[j], k);
    }
    if Offers(entries, k) && !Holds(entries[|entries| - 1], k) {
      var j :| 0 <= j < |entries| && Holds(entries[j], k);
      assert entries[..|entries| - 1][j] == entries[j];
    }
  }

  lemma AnyOffersSnoc<V>(components: seq<Component<V>>, k: Utf8)
    requires components != []
    ensures AnyOffers(components, k) <==>
            AnyOffers(components[..|components| - 1], k) || Offers(Contribution(components[|components| - 1]), k)
  {
    var init := components[..|components| - 1];
    if AnyOffers(init, k) {
      var i :| 0 <= i < |init| && Offers(Contribution(init[i]), k);
      assert components[i] == init[i];
    }
    if AnyOffers(components, k) && !Offers(Contribution(components[|components| - 1]), k) {
      var i :| 0 <= i < |components| && Offers(Contribution(components[i]), k);
      assert components[i] == init[i];
    }
  }

  /** The given fields hold the last value of each key, and the declared sources of the keys that have one. */
  lemma {:induction false} InitialHolds<V>(entries: seq<Entry<V>>, declared: map<Utf8, Utf8>, k: Utf8)
    ensures var m := InitialFields(entries, declared);
            && (k in m.fields <==> Offers(entries, k))
            && (k in m.writers <==> k in m.fields && k in declared)
            && (k in m.writers ==> m.writers[k] == declared[k])
            && forall j: nat | IsLastOffer(entries, k, j) :: Some(m.fields[k]) == entries[j].value
  {
    if entries != [] {
      var init, last := entries[..|entries| - 1], entries[|entries| - 1];
      InitialHolds(init, declared, k);
      OffersSnoc(entries, k);
      forall j: nat | IsLastOffer(entries, k, j) && j < |init| ensures IsLastOffer(init, k, j) && !Holds(last, k) {
        assert init[j] == entries[j];
        forall i | j < i < |init| ensures !Holds(init[i], k) {
          assert init[i] == entries[i];
        }
      }
    }
  }

  /** Adding entries brings exactly the keys that they hold, with the first value and the right writer. */
  lemma {:induction false} AddedHold<V>(m: Merged<V>, entries: seq<Entry<V>>, sources: map<Utf8, Utf8>, name: Utf8,
                                        k: Utf8)
    ensures var n := AddEntries(m, entries, sources, name);
            && (k in n.fields <==> k in m.fields || Offers(entries, k))
            && (k !in m.fields ==> forall j: nat | IsFirstOffer(entries, k, j) ::
                  Some(n.fields[k]) == entries[j].value
                  && k in n.writers && n.writers[k] == if k in sources then sources[k] else name)
  {
    if entries != [] {
      var init, last := entries[..|entries| - 1], entries[|entries| - 1];
      AddedHold(m, init, sources, name, k);
      OffersSnoc(entries, k);
      forall j: nat | IsFirstOffer(entries, k, j) && j < |init| ensures IsFirstOffer(init, k, j) {
        assert init[..j] == entries[..j];
      }
      forall j: nat | IsFirstOffer(entries, k, j) && j == |init| ensures !Offers(init, k) {
        assert init == entries[..j];
      }
    }
  }

  lemma ChildHolds<V>(m: Merged<V>, c: Component<V>, k: Utf8)
    ensures var n := AddChild(m, c); var entries := Contribution(c);
            && (k in n.fields <==> k in m.fields || Offers(entries, k))
            && (k !in m.fields ==> forall j: nat | IsFirstOffer(entries, k, j) ::
                  Some(n.fields[k]) == entries[j].value && k in n.writers && n.writers[k] == SourceOf(c, k))
  {
    match c.child
    case Plain(entries) => AddedHold(m, entries, map[], c.name, k);
    case Nested(_, _, sources, entries) => AddedHold(m, entries, sources, c.name, k);
    case _ =>
  }

  /** A key is there exactly if somebody offers it with a value. */
  lemma {:induction false} FieldIsThereIff<V>(initial: seq<Entry<V>>, declared: map<Utf8, Utf8>,
                                              components: seq<Component<V>>, k: Utf8)
    ensures k in MergedFields(initial, declared, components).fields <==>
            Offers(initial, k) || AnyOffers(components, k)
  {
    if components == [] {
      InitialHolds(initial, declared, k);
    } else {
      var init, last := components[..|components| - 1], components[|components| - 1];
      FieldIsThereIff(initial, declared, init, k);
      ChildHolds(MergedFields(initial, declared, init), last, k);
      AnyOffersSnoc(components, k);
    }
  }

  /** A given field has its last given value; its writer is its declared source, if it has one. */
  lemma GivenFieldStays<V>(initial: seq<Entry<V>>, declared: map<Utf8, Utf8>, components: seq<Component<V>>,
                           k: Utf8, j: nat)
    requires IsLastOffer(initial, k, j)
    ensures var m := MergedFields(initial, declared, components);
            && k in m.fields && Some(m.fields[k]) == initial[j].value
            && (k in m.writers <==> k in declared) && (k in declared ==> m.writers[k] == declared[k])
  {
    InitialHolds(initial, declared, k);
    FirstWriterWins(initial, declared, components, 0);
    assert components[..0] == [];
  }

  /** Any other field is that of the first component that offers it, with the first value offered there. */
  lemma FieldIsFromFirst<V>(initial: seq<Entry<V>>, declared: map<Utf8, Utf8>, components: seq<Component<V>>,
                            k: Utf8, i: nat, j: nat)
    requires !Offers(initial, k) && i < |components| && !AnyOffers(components[..i], k)
    requires IsFirstOffer(Contribution(components[i]), k, j)
    ensures var m := MergedFields(initial, declared, components);
            && k in m.fields && Some(m.fields[k]) == Contribution(components[i])[j].value
            && k in m.writers && m.writers[k] == SourceOf(components[i], k)
  {
    var before, upTo := components[..i], components[..i + 1];
    FieldIsThereIff(initial, declared, before, k);
    assert upTo[..i] == before && upTo[i] == components[i];
    ChildHolds(MergedFields(initial, declared, before), components[i], k);
    FirstWriterWins(initial, declared, components, i + 1);
  }

  /** Every field of the aggregate is accounted for, and nothing offered is missing. */
  ghost predicate FieldsAreFirst<V>(fields: map<Utf8, V>, writers: map<Utf8, Utf8>, initial: seq<Entry<V>>,
                                    declared: map<Utf8, Utf8>, components: seq<Component<V>>)
  {
    && (forall k :: k in fields <==> Offers(initial, k) || AnyOffers(components, k))
    && (forall k, j: nat | IsLastOffer(initial, k, j) ::
          && Some(fields[k]) == initial[j].value
          && (k in writers <==> k in declared) && (k in declared ==> writers[k] == declared[k]))
    && (forall k, i: nat, j: nat | i < |components| && IsFirstOffer(Contribution(components[i]), k, j)
          && !Offers(initial, k) && !AnyOffers(components[..i], k) ::
          && Some(fields[k]) == Contribution(components[i])[j].value
          && k in writers && writers[k] == SourceOf(components[i], k))
  }

  lemma MergedAreFirst<V>(initial: seq<Entry<V>>, declared: map<Utf8, Utf8>, components: seq<Component<V>>)
    ensures var m := MergedFields(initial, declared, components);
            FieldsAreFirst(m.fields, m.writers, initial, declared, components)
  {
    var m := MergedFields(initial, declared, components);
    forall k ensures k in m.fields <==> Offers(initial, k) || AnyOffers(components, k) {
      FieldIsThereIff(initial, declared, components, k);
    }
    forall k, j: nat | IsLastOffer(initial, k, j)
      ensures Some(m.fields[k]) == initial[j].value
      ensures (k in m.writers <==> k in declared) && (k in declared ==> m.writers[k] == declared[k])
    {
      GivenFieldStays(initial, declared, components, k, j);
    }
    forall k, i: nat, j: nat | i < |components| && IsFirstOffer(Contribution(components[i]), k, j)
        && !Offers(initial, k) && !AnyOffers(components[..i], k)
      ensures Some(m.fields[k]) == Contribution(components[i])[j].value
      ensures k in m.writers && m.writers[k] == SourceOf(components[i], k)
    {
      FieldIsFromFirst(initial, declared, components, k, i, j);
    }
  }

  // ---- What the counts and issues say of the children ------------------------------------

  ghost function WithClass(classes: seq<Class>, c: Class): set<nat> {
    set i: nat | i < |classes| && classes[i] == c
  }

  lemma {:induction false} CountIsSize(classes: seq<Class>, c: Class)
    ensures Count(classes, c) == |WithClass(classes, c)|
  {
    if classes != [] {
      var init, n := classes[..|classes| - 1], |classes| - 1;
      CountIsSize(init, c);
      assert WithClass(classes, c) == WithClass(init, c) + if classes[n] == c then {n} else {};
    }
  }

  /** Each count is the number of components whose projector had that outcome. */
  lemma CountsAreOutcomes<V>(components: seq<Component<V>>)
    ensures var n := CountClasses(Classes(components));
            && n.unavailable == |set i: nat | i < |components| && components[i].child.NoProjector?|
            && n.invalid == |set i: nat | i < |components| && components[i].child.NotAMapping?|
            && n.successful == |set i: nat | i < |components| &&
                                 var c := components[i].child; c.Plain? || (c.Nested? && c.status == StatusOk)|
            && n.degraded == |set i: nat | i < |components| &&
                               var c := components[i].child; c.Nested? && c.status == StatusDegraded|
            && n.failed == |set i: nat | i < |components| &&
                             var c := components[i].child;
                             c.Raises? || c.Unreadable? || (c.Nested? && c.status == StatusError)|
  {
    var classes := Classes(components);
    CountIsSize(classes, Unavailable);
    CountIsSize(classes, Invalid);
    CountIsSize(classes, Successful);
    CountIsSize(classes, Degraded);
    CountIsSize(classes, Failed);
    assert WithClass(classes, Unavailable) == set i: nat | i < |components| && components[i].child.NoProjector?;
    assert WithClass(classes, Invalid) == set i: nat | i < |components| && components[i].child.NotAMapping?;
    assert WithClass(classes, Successful) == set i: nat | i < |components| &&
      var c := components[i].child; c.Plain? || (c.Nested? && c.status == StatusOk);
    assert WithClass(classes, Degraded) == set i: nat | i < |components| &&
      var c := components[i].child; c.Nested? && c.status == StatusDegraded;
    assert WithClass(classes, Failed) == set i: nat | i < |components| &&
      var c := components[i].child; c.Raises? || c.Unreadable? || (c.Nested? && c.status == StatusError);
  }

  /** The issue of a component names it, carries its error, and points to the level that caused it. */
  ghost predicate Tells<V>(i: Issue, c: Component<V>) {
    && i.component == c.name
    && match c.child
       case NoProjector => false
       case Plain(_) => false
       case Raises(t, m) => i.reason == "error" && i.errorType == t && i.message == m && i.cause == None
       case NotAMapping(t, m) => i.reason == "invalid_result" && i.errorType == t && i.message == m && i.cause == None
       case Unreadable(cause, t, m) => i.reason == "error" && i.errorType == t && i.message == m && i.cause == cause
       case Nested(status, digest, _, _) =>
         && i.cause == Some(digest) && i.errorType == "" && i.message == ""
         && status != StatusOk
         && i.reason == if status == StatusDegraded then "nested_degraded" else "nested_error"
  }

  /** The issues are those of the unhealthy components, in their order. */
  lemma {:induction false} IssuesTell<V>(components: seq<Component<V>>, i: nat)
    requires i < |components|
    ensures var k := |Issues(components[..i])|;
            if IsUnhealthy(ClassOf(components[i].child))
            then k < |Issues(components)| && Tells(Issues(components)[k], components[i])
            else |Issues(components[..i + 1])| == k
  {
    var init := components[..|components| - 1];
    if i == |init| {
      assert components[..i] == init && components[..i + 1] == components;
    } else {
      IssuesTell(init, i);
      assert init[..i] == components[..i] && init[..i + 1] == components[..i + 1];
      assert init[i] == components[i] && Issues(init) <= Issues(components);
    }
  }

  // ---- Aggregation -----------------------------------------------------------------------

  function Sampled(issues: seq<Issue>): seq<Issue> {
    if |issues| < MAX_SAMPLES then issues else issues[..MAX_SAMPLES]
  }

  /** The envelope that describes these components. */
  ghost predicate Describes<V>(p: Projection<V>, initial: seq<Entry<V>>, declared: map<Utf8, Utf8>,
                               components: seq<Component<V>>)
  {
    var n, issues := CountClasses(Classes(components)), Issues(components);
    var m := MergedFields(initial, declared, components);
    && p.fields == m.fields && p.sources == m.writers
    && p.status == StatusOf(n) && p.componentCount == |components| && p.counts == n
    && p.samples == Sampled(issues) && p.issueCount == |issues| && p.issueDigest == IssuesDigest(issues)
    && p.truncated == (|issues| > MAX_SAMPLES)
    && p.auditDigest == AuditDigest(p.status, |components|, n, |issues|, p.issueDigest)
  }

  /** What aggregation feeds the envelope. */
  function Envelope<V>(m: Merged<V>, n: Counts, total: nat, issues: seq<Issue>)
    : Result<Projection<V>, ProjectionError>
  {
    Construct(m.fields, m.writers, StatusOf(n), total, n, Sampled(issues), MAX_SAMPLES, Some(|issues|),
              Some(IssuesDigest(issues)), |issues| > |Sampled(issues)|)
  }

  /** The envelope's own validation accepts it, for any number of components within the protocol limit. */
  lemma ValidationPassesIff<V>(m: Merged<V>, n: Counts, issues: seq<Issue>)
    requires WritersAreFields(m) && |issues| == n.Unhealthy()
    ensures Envelope(m, n, n.Total(), issues).Ok? <==> n.Total() <= MAX_COMPONENTS
    ensures n.Total() <= MAX_COMPONENTS ==>
              Envelope(m, n, n.Total(), issues).value ==
              Projection(m.fields, m.writers, StatusOf(n), n.Total(), n, Sampled(issues), MAX_SAMPLES, |issues|,
                         IssuesDigest(issues), |issues| > MAX_SAMPLES,
                         AuditDigest(StatusOf(n), n.Total(), n, |issues|, IssuesDigest(issues)))
  {
    assert |issues| <= MAX_SAMPLES ==> Sampled(issues) == issues;
  }

  /** One pass over the components; it stops only at an issue beyond the protocol limit. */
  method Scan<V>(components: seq<Component<V>>, initial: seq<Entry<V>>, declared: map<Utf8, Utf8>)
      returns (merged: Merged<V>, counts: Counts, issues: IssueAccumulator, complete: bool)
    ensures !complete ==> |components| > MAX_COMPONENTS
    ensures complete ==> merged == MergedFields(initial, declared, components)
    ensures complete ==> counts == CountClasses(Classes(components))
    ensures complete ==> issues.Holds(Issues(components)) && issues.sampleLimit == MAX_SAMPLES
  {
    ghost var held: seq<Issue> := [];
    merged := InitialFields(initial, declared);
    counts := Counts(0, 0, 0, 0, 0);
    issues := new IssueAccumulator(MAX_SAMPLES);
    var i := 0;
    while i < |components|
      invariant i <= |components|
      invariant merged == MergedFields(initial, declared, components[..i])
      invariant counts == CountClasses(Classes(components[..i]))
      invariant held == Issues(components[..i])
      invariant issues.Holds(held) && issues.sampleLimit == MAX_SAMPLES && fresh(issues)
    {
      var c := components[i];
      OneMore(initial, declared, components, i);
      var issue := IssueOf(c);
      if issue.Some? {
        var added := issues.Add(issue.value, held);
        if !added {
          IssuesAreFew(components, i);
          return merged, counts, issues, false;
        }
        held := held + [issue.value];
      }
      counts := Tallied(counts, ClassOf(c.child));
      merged := AddChild(merged, c);
      i := i + 1;
    }
    assert components[..|components|] == components;
    complete := true;
  }

  /**
   Aggregate the components in order.  It succeeds exactly when their number is within the protocol
   limit, and then the envelope describes every one of them.
   */
  method Aggregate<V>(components: seq<Component<V>>, initial: seq<Entry<V>>, declared: map<Utf8, Utf8>)
      returns (r: Result<Projection<V>, ProjectionError>)
    ensures r.Ok? <==> |components| <= MAX_COMPONENTS
    ensures r.Ok? ==> Describes(r.value, initial, declared, components)
    ensures r.Ok? ==> FieldsAreFirst(r.value.fields, r.value.sources, initial, declared, components)
  {
    var merged, counts, issues, complete := Scan(components, initial, declared);
    if !complete {
      return Err(TooManyIssues);
    }
    ghost var all := Issues(components);
    assert issues.samples == Sampled(all) && issues.count == |all| && issues.Digest() == IssuesDigest(all);
    CountsSum(Classes(components));
    OneIssuePerUnhealthyComponent(components);
    FirstWriterWins(initial, declared, components, |components|);
    MergedAreFirst(initial, declared, components);
    ValidationPassesIff(merged, counts, all);
    r := Construct(merged.fields, merged.writers, StatusOf(counts), |components|, counts, issues.samples,
                   issues.sampleLimit, Some(issues.count), Some(issues.Digest()), issues.count > |issues.samples|);
    assert r == Envelope(merged, counts, |components|, all);
  }

  function Tallied(n: Counts, c: Class): Counts {
    match c
    case Successful => n.(successful := n.successful + 1)
    case Degraded => n.(degraded := n.degraded + 1)
    case Failed => n.(failed := n.failed + 1)
    case Invalid => n.(invalid := n.invalid + 1)
    case Unavailable => n.(unavailable := n.unavailable + 1)
  }

  lemma OneMore<V>(initial: seq<Entry<V>>, declared: map<Utf8, Utf8>, components: seq<Component<V>>, i: nat)
    requires i < |components|
    ensures MergedFields(initial, declared, components[..i + 1]) ==
              AddChild(MergedFields(initial, declared, components[..i]), components[i])
    ensures CountClasses(Classes(components[..i + 1])) ==
              Tallied(CountClasses(Classes(components[..i])), ClassOf(components[i].child))
    ensures IssueOf(components[i]).None? ==> Issues(components[..i + 1]) == Issues(components[..i])
    ensures IssueOf(components[i]).Some? ==>
              Issues(components[..i + 1]) == Issues(components[..i]) + [IssueOf(components[i]).value]
  {
    assert components[..i + 1][..i] == components[..i];
    var classes := Classes(components[..i + 1]);
    assert classes[..i] == Classes(components[..i]) && classes[i] == ClassOf(components[i].child);
  }

  lemma IssuesAreFew<V>(components: seq<Component<V>>, i: nat)
    requires i < |components| && |Issues(components[..i])| >= MAX_COMPONENTS
    ensures |components| > MAX_COMPONENTS
  {
    OneIssuePerUnhealthyComponent(components[..i]);
    CountsSum(Classes(components[..i]));
  }

  // ---- Trees of aggregations -------------------------------------------------------------

  datatype Tree = Working | Broken | Malformed | Absent | Group(children: seq<Tree>)

  function TreeClass(t: Tree): Class
    decreases t, 1
  {
    match t
    case Working => Successful
    case Broken => Failed
    case Malformed => Invalid
    case Absent => Unavailable
    case Group(children) => ClassOfStatus(Health(children))
  }

  function TreeClasses(children: seq<Tree>): (classes: seq<Class>)
    ensures |classes| == |children| && forall i | 0 <= i < |children| :: classes[i] == TreeClass(children[i])
    decreases children, 0
  {
    if children == [] then [] else TreeClasses(children[..|children| - 1]) + [TreeClass(children[|children| - 1])]
  }

  /** The status of the level that aggregates these children. */
  function Health(children: seq<Tree>): Status
    decreases children, 1
  {
    StatusOf(CountClasses(TreeClasses(children)))
  }

  predicate HasBadLeaf(t: Tree) {
    match t
    case Group(children) => exists i | 0 <= i < |children| :: HasBadLeaf(children[i])
    case _ => t.Broken? || t.Malformed?
  }

  /** Some leaf works, or some whole group reports ok. */
  predicate HasGoodPart(t: Tree)
    decreases t
  {
    match t
    case Working => true
    case Group(children) =>
      Health(children) == StatusOk || exists i | 0 <= i < |children| :: HasGoodPart(children[i])
    case _ => false
  }

  lemma StatusByClasses(classes: seq<Class>)
    ensures StatusOf(CountClasses(classes)) == StatusOk <==> forall i | 0 <= i < |classes| :: !IsUnhealthy(classes[i])
    ensures StatusOf(CountClasses(classes)) == StatusError <==>
              && (exists i | 0 <= i < |classes| :: IsUnhealthy(classes[i]))
              && forall i | 0 <= i < |classes| :: !classes[i].Successful? && !classes[i].Degraded?
  {
    CountIsPositiveIff(classes, Successful);
    CountIsPositiveIff(classes, Degraded);
    CountIsPositiveIff(classes, Failed);
    CountIsPositiveIff(classes, Invalid);
  }

  /** However deep the tree, it is ok exactly when no leaf below it failed or was invalid. */
  lemma {:induction false} OkIffNoBadLeaf(children: seq<Tree>)
    ensures Health(children) == StatusOk <==> forall i | 0 <= i < |children| :: !HasBadLeaf(children[i])
    decreases children
  {
    StatusByClasses(TreeClasses(children));
    forall i | 0 <= i < |children|
      ensures IsUnhealthy(TreeClass(children[i])) <==> HasBadLeaf(children[i])
    {
      if children[i].Group? {
        OkIffNoBadLeaf(children[i].children);
      }
    }
  }

  /** It reports an error exactly when some leaf below is bad and nothing below is good. */
  lemma {:induction false} ErrorIffNothingGood(children: seq<Tree>)
    ensures Health(children) == StatusError <==>
              && (exists i | 0 <= i < |children| :: HasBadLeaf(children[i]))
              && forall i | 0 <= i < |children| :: !HasGoodPart(children[i])
    decreases children
  {
    StatusByClasses(TreeClasses(children));
    OkIffNoBadLeaf(children);
    forall i | 0 <= i < |children|
      ensures TreeClass(children[i]).Successful? || TreeClass(children[i]).Degraded? <==> HasGoodPart(children[i])
    {
      if children[i].Group? {
        OkIffNoBadLeaf(children[i].children);
        ErrorIffNothingGood(children[i].children);
      }
    }
  }
}
