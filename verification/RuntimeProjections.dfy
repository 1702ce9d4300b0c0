/**
 Aggregation of component projections: first-writer fields, health counts and status, and bounded
 evidence whose digest covers every issue.
 */
module RuntimeProjections {
  import opened Outcomes
  import opened Digests

  const SCHEMA := "blackbase.runtime_projection.v1"

  const MAX_COMPONENTS := 2_147_483_647

  const MAX_SAMPLES := 16

  // ---- Issues ----------------------------------------------------------------------------

  datatype Issue = Issue(component: Utf8, reason: Utf8, errorType: Utf8, message: Utf8, cause: Option<Digest>)

  function IssueParts(i: Issue): seq<seq<Atom>> {
    [Octets(SCHEMA), Octets(i.component), Octets(i.reason), Octets(i.errorType), Octets(i.message)] +
    if i.cause.Some? then [Octets("cause_digest"), [Hex(i.cause.value)]] else []
  }

  function IssueDigest(i: Issue): Digest {
    Sha256(Stream(IssueParts(i)))
  }

  function HexParts(issues: seq<Issue>): seq<seq<Atom>> {
    seq(|issues|, i requires 0 <= i < |issues| => [Hex(IssueDigest(issues[i]))])
  }

  function IssuesDigest(issues: seq<Issue>): Digest {
    Sha256(Stream(HexParts(issues)))
  }

  ghost predicate TextsFit(i: Issue) {
    |i.component| < FRAME_LIMIT && |i.reason| < FRAME_LIMIT && |i.errorType| < FRAME_LIMIT && |i.message| < FRAME_LIMIT
  }

  lemma IssuePartsFit(i: Issue)
    requires TextsFit(i)
    ensures Fit(IssueParts(i))
  {
    OctetsSize(SCHEMA);
    OctetsSize(i.component);
    OctetsSize(i.reason);
    OctetsSize(i.errorType);
    OctetsSize(i.message);
    OctetsSize("cause_digest");
    assert i.cause.Some? ==> Size([Hex(i.cause.value)]) == 64;
  }

  /** The issue with its texts as the bytes that are hashed. */
  function EncodedIssue(i: Issue): Issue {
    Issue(Encoded(i.component), Encoded(i.reason), Encoded(i.errorType), Encoded(i.message), i.cause)
  }

  lemma EncodedParts(i: Issue)
    ensures IssueParts(EncodedIssue(i)) == IssueParts(i)
  {
    OctetsAreInjective(i.component, Encoded(i.component));
    OctetsAreInjective(i.reason, Encoded(i.reason));
    OctetsAreInjective(i.errorType, Encoded(i.errorType));
    OctetsAreInjective(i.message, Encoded(i.message));
  }

  /** Before any text is shortened, the digest tells two issues apart exactly when their bytes or causes differ. */
  lemma IssueDigestIsInjective(a: Issue, b: Issue)
    requires TextsFit(a) && TextsFit(b)
    ensures IssueDigest(a) == IssueDigest(b) <==> EncodedIssue(a) == EncodedIssue(b)
  {
    if IssueDigest(a) == IssueDigest(b) {
      IssuePartsFit(a);
      IssuePartsFit(b);
      StreamIsInjective(IssueParts(a), IssueParts(b));
      SamePartsSameIssue(a, b);
    } else {
      EncodedParts(a);
      EncodedParts(b);
    }
  }

  lemma SamePartsSameIssue(a: Issue, b: Issue)
    requires IssueParts(a) == IssueParts(b)
    ensures EncodedIssue(a) == EncodedIssue(b)
  {
    var p, q := IssueParts(a), IssueParts(b);
    assert p[1] == q[1] && p[2] == q[2] && p[3] == q[3] && p[4] == q[4];
    OctetsAreInjective(a.component, b.component);
    OctetsAreInjective(a.reason, b.reason);
    OctetsAreInjective(a.errorType, b.errorType);
    OctetsAreInjective(a.message, b.message);
    assert a.cause.Some? <==> |p| == 7;
    assert b.cause.Some? <==> |q| == 7;
    if a.cause.Some? {
      assert p[6] == [Hex(a.cause.value)] && q[6] == [Hex(b.cause.value)];
      assert p[6][0] == q[6][0];
    }
  }

  /** The issues agree one by one in the bytes of their texts and in their causes. */
  ghost predicate SameEncoded(xs: seq<Issue>, ys: seq<Issue>) {
    |xs| == |ys| && forall i | 0 <= i < |xs| :: EncodedIssue(xs[i]) == EncodedIssue(ys[i])
  }

  /** The running digest determines the whole list of issues, also those that were not sampled. */
  lemma IssuesDigestCoversAll(xs: seq<Issue>, ys: seq<Issue>)
    requires forall i | 0 <= i < |xs| :: TextsFit(xs[i])
    requires forall i | 0 <= i < |ys| :: TextsFit(ys[i])
    ensures IssuesDigest(xs) == IssuesDigest(ys) <==> SameEncoded(xs, ys)
  {
    var p, q := HexParts(xs), HexParts(ys);
    if IssuesDigest(xs) == IssuesDigest(ys) {
      forall d: Digest ensures Size([Hex(d)]) == 64 {
        assert [Hex(d)][1..] == [];
      }
      StreamIsInjective(p, q);
      assert |xs| == |p| == |q| == |ys|;
      forall i | 0 <= i < |xs| ensures EncodedIssue(xs[i]) == EncodedIssue(ys[i]) {
        assert p[i] == q[i] && p[i][0] == q[i][0];
        IssueDigestIsInjective(xs[i], ys[i]);
      }
    }
    if SameEncoded(xs, ys) {
      forall i | 0 <= i < |xs| ensures p[i] == q[i] {
        IssueDigestIsInjective(xs[i], ys[i]);
      }
      assert p == q;
    }
  }

  class IssueAccumulator {
    const sampleLimit: nat
    var count: nat
    var samples: seq<Issue>
    var hashed: seq<Atom>

    /** The accumulator has been given exactly `issues`, in this order. */
    ghost predicate Holds(issues: seq<Issue>)
      reads this
    {
      && count == |issues| <= MAX_COMPONENTS
      && samples == issues[..if |issues| < sampleLimit then |issues| else sampleLimit]
      && hashed == Stream(HexParts(issues))
    }

    constructor (sampleLimit: nat)
      requires sampleLimit <= MAX_SAMPLES
      ensures this.sampleLimit == sampleLimit && Holds([])
    {
      this.sampleLimit, count, samples, hashed := sampleLimit, 0, [], [];
    }

    /** Refuses only an issue beyond the protocol limit. */
    method Add(issue: Issue, ghost before: seq<Issue>) returns (added: bool)
      requires Holds(before)
      modifies this
      ensures added <==> |before| < MAX_COMPONENTS
      ensures Holds(if added then before + [issue] else before)
    {
      if count >= MAX_COMPONENTS {
        return false;
      }
      assert HexParts(before + [issue])[..|before|] == HexParts(before);
      count := count + 1;
      hashed := hashed + Framed([Hex(IssueDigest(issue))]);
      if |samples| < sampleLimit {
        samples := samples + [issue];
      }
      added := true;
    }

    function Digest(): Digest
      reads this
    {
      Sha256(hashed)
    }
  }

  // ---- Health ----------------------------------------------------------------------------

  datatype Class = Successful | Degraded | Failed | Invalid | Unavailable

  datatype Status = StatusOk | StatusDegraded | StatusError

  function StatusText(s: Status): Utf8 {
    match s
    case StatusOk => "ok"
    case StatusDegraded => "degraded"
    case StatusError => "error"
  }

  datatype Counts = Counts(successful: nat, degraded: nat, failed: nat, invalid: nat, unavailable: nat) {
    function Total(): nat {
      successful + degraded + failed + invalid + unavailable
    }

    function Unhealthy(): nat {
      degraded + failed + invalid
    }
  }

  function StatusOf(n: Counts): Status {
    if n.Unhealthy() == 0 then StatusOk
    else if n.successful > 0 || n.degraded > 0 then StatusDegraded
    else StatusError
  }

  function Count(classes: seq<Class>, c: Class): nat {
    if classes == [] then 0 else Count(classes[..|classes| - 1], c) + if classes[|classes| - 1] == c then 1 else 0
  }

  function CountClasses(classes: seq<Class>): Counts {
    Counts(Count(classes, Successful), Count(classes, Degraded), Count(classes, Failed), Count(classes, Invalid),
           Count(classes, Unavailable))
  }

  lemma {:induction false} CountsSum(classes: seq<Class>)
    ensures CountClasses(classes).Total() == |classes|
  {
    if classes != [] {
      CountsSum(classes[..|classes| - 1]);
    }
  }

  /** Each count is positive exactly when some component is of its class. */
  lemma {:induction false} CountIsPositiveIff(classes: seq<Class>, c: Class)
    ensures Count(classes, c) > 0 <==> c in classes
  {
    if classes != [] {
      var init, last := classes[..|classes| - 1], classes[|classes| - 1];
      CountIsPositiveIff(init, c);
      assert classes == init + [last];
    }
  }

  // ---- The validated envelope ------------------------------------------------------------

  datatype Projection<V> = Projection(
    fields: map<Utf8, V>, sources: map<Utf8, Utf8>, status: Status, componentCount: nat, counts: Counts,
    samples: seq<Issue>, sampleLimit: nat, issueCount: nat, issueDigest: Digest, truncated: bool, auditDigest: Digest)

  datatype ProjectionError =
    | AbsentField
    | CountOutOfRange
    | CountsDisagree
    | StatusDisagrees
    | TooManySamples
    | IssueCountDisagrees
    | DigestMissing
    | DigestDisagrees
    | TooManyIssues

  function CountParts(componentCount: nat, n: Counts, issueCount: nat): seq<seq<Atom>> {
    [Octets(Decimal(componentCount)), Octets(Decimal(n.successful)), Octets(Decimal(n.degraded)),
     Octets(Decimal(n.failed)), Octets(Decimal(n.invalid)), Octets(Decimal(n.unavailable)), Octets(Decimal(issueCount))]
  }

  function AuditDigest(status: Status, componentCount: nat, n: Counts, issueCount: nat, issueDigest: Digest): Digest {
    Sha256(Stream([Octets(SCHEMA), Octets(StatusText(status))] + CountParts(componentCount, n, issueCount)
                  + [[Hex(issueDigest)]]))
  }

  predicate InRange(componentCount: nat, n: Counts) {
    && componentCount <= MAX_COMPONENTS && n.successful <= MAX_COMPONENTS && n.degraded <= MAX_COMPONENTS
    && n.failed <= MAX_COMPONENTS && n.invalid <= MAX_COMPONENTS && n.unavailable <= MAX_COMPONENTS
  }

  /** The checks of the envelope, in their order. */
  function Construct<V>(fields: map<Utf8, V>, sources: map<Utf8, Utf8>, status: Status, componentCount: nat, n: Counts,
                        samples: seq<Issue>, sampleLimit: nat, issueCount: Option<nat>, issueDigest: Option<Digest>,
                        truncated: bool): Result<Projection<V>, ProjectionError>
  {
    var issues := if issueCount.None? then |samples| else issueCount.value;
    if !(sources.Keys <= fields.Keys) then Err(AbsentField)
    else if !InRange(componentCount, n) then Err(CountOutOfRange)
    else if n.Total() != componentCount then Err(CountsDisagree)
    else if status != StatusOf(n) then Err(StatusDisagrees)
    else if sampleLimit > MAX_SAMPLES || |samples| > MAX_SAMPLES || |samples| > sampleLimit then Err(TooManySamples)
    else if issues > MAX_COMPONENTS then Err(CountOutOfRange)
    else if issues != n.Unhealthy() || issues < |samples| then Err(IssueCountDisagrees)
    else if issues > |samples| && issueDigest.None? then Err(DigestMissing)
    else if issues == |samples| && issueDigest.Some? && issueDigest.value != IssuesDigest(samples)
    then Err(DigestDisagrees)
    else
      var digest := if issueDigest.Some? then issueDigest.value else IssuesDigest(samples);
      Ok(Projection(fields, sources, status, componentCount, n, samples, sampleLimit, issues, digest,
                    truncated || issues > |samples|, AuditDigest(status, componentCount, n, issues, digest)))
  }

  // ---- Components ------------------------------------------------------------------------

  datatype Entry<+V> = Entry(key: Option<Utf8>, value: Option<V>)

  /** What calling the projector of a component yields. */
  datatype Child<+V> =
    | NoProjector
    | Raises(errorType: Utf8, message: Utf8)
    | NotAMapping(errorType: Utf8, message: Utf8)
    | Unreadable(cause: Option<Digest>, errorType: Utf8, message: Utf8)
    | Plain(entries: seq<Entry<V>>)
    | Nested(status: Status, auditDigest: Digest, sources: map<Utf8, Utf8>, entries: seq<Entry<V>>)

  datatype Component<+V> = Component(name: Utf8, child: Child<V>)

  function ClassOf<V>(child: Child<V>): Class {
    match child
    case NoProjector => Unavailable
    case Raises(_, _) => Failed
    case NotAMapping(_, _) => Invalid
    case Unreadable(_, _, _) => Failed
    case Plain(_) => Successful
    case Nested(status, _, _, _) => ClassOfStatus(status)
  }

  function ClassOfStatus(status: Status): Class {
    match status
    case StatusOk => Successful
    case StatusDegraded => Degraded
    case StatusError => Failed
  }

  function IssueOf<V>(c: Component<V>): Option<Issue> {
    match c.child
    case NoProjector => None
    case Raises(errorType, message) => Some(Issue(c.name, "error", errorType, message, None))
    case NotAMapping(errorType, message) => Some(Issue(c.name, "invalid_result", errorType, message, None))
    case Unreadable(cause, errorType, message) => Some(Issue(c.name, "error", errorType, message, cause))
    case Plain(_) => None
    case Nested(status, auditDigest, _, _) =>
      match status
      case StatusOk => None
      case StatusDegraded => Some(Issue(c.name, "nested_degraded", "", "", Some(auditDigest)))
      case StatusError => Some(Issue(c.name, "nested_error", "", "", Some(auditDigest)))
  }

  function Classes<V>(components: seq<Component<V>>): (classes: seq<Class>)
    ensures |classes| == |components|
  {
    seq(|components|, i requires 0 <= i < |components| => ClassOf(components[i].child))
  }

  function Issues<V>(components: seq<Component<V>>): seq<Issue> {
    if components == [] then []
    else
      var last := IssueOf(components[|components| - 1]);
      Issues(components[..|components| - 1]) + if last.Some? then [last.value] else []
  }

  predicate IsUnhealthy(c: Class) {
    c.Degraded? || c.Failed? || c.Invalid?
  }

  lemma IssuesAreUnhealthy<V>(c: Component<V>)
    ensures IssueOf(c).Some? <==> IsUnhealthy(ClassOf(c.child))
  {
  }

  lemma UnhealthySnoc(classes: seq<Class>, c: Class)
    ensures CountClasses(classes + [c]).Unhealthy() ==
              CountClasses(classes).Unhealthy() + if IsUnhealthy(c) then 1 else 0
  {
    assert (classes + [c])[..|classes|] == classes;
  }

  /** There is one issue for each degraded, failed or invalid component. */
  lemma {:induction false} OneIssuePerUnhealthyComponent<V>(components: seq<Component<V>>)
    ensures |Issues(components)| == CountClasses(Classes(components)).Unhealthy()
  {
    if components != [] {
      var init, last := components[..|components| - 1], components[|components| - 1];
      OneIssuePerUnhealthyComponent(init);
      assert Classes(components) == Classes(init) + [ClassOf(last.child)];
      UnhealthySnoc(Classes(init), ClassOf(last.child));
      IssuesAreUnhealthy(last);
    }
  }
}
