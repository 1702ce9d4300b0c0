/** The audit of an envelope within a hard byte budget: fixed evidence plus as many samples as fit. */
module ProjectionAudit {
  import opened Outcomes
  import opened Digests
  import opened RuntimeProjections

  const AUDIT_MAX_BYTES := 4096

  // ---- Bounded text ----------------------------------------------------------------------

  /** A text as shown: whole, or cut at a character with "…#" and sixteen digits of its digest. */
  datatype Display = Whole(text: Utf8) | Cut(prefix: Utf8, digest: Digest)

  const SUFFIX_BYTES := 20

  function IsContinuation(unit: char): bool {
    0x80 <= unit as int < 0xC0
  }

  /** The last character boundary at or before `n`. */
  function Boundary(text: Utf8, n: nat): (m: nat)
    requires n <= |text|
    ensures m <= n && (m == 0 || m == |text| || !IsContinuation(text[m]))
    ensures forall k | m < k <= n :: k < |text| && IsContinuation(text[k])
  {
    if n == 0 || n == |text| || !IsContinuation(text[n]) then n else Boundary(text, n - 1)
  }

  function BoundedText(text: Utf8, limit: nat): Display
    requires limit > SUFFIX_BYTES
  {
    if |text| <= limit then Whole(text)
    else Cut(Encoded(text)[..Boundary(Encoded(text), limit - SUFFIX_BYTES)], Sha256(Octets(text)))
  }

  function DisplayBytes(d: Display): nat {
    match d
    case Whole(text) => |text|
    case Cut(prefix, _) => |prefix| + SUFFIX_BYTES
  }

  /** A shown text never exceeds its limit, is cut exactly when it is too long, and starts like the original. */
  lemma ShownTextIsBounded(text: Utf8, limit: nat)
    requires limit > SUFFIX_BYTES
    ensures DisplayBytes(BoundedText(text, limit)) <= limit
    ensures BoundedText(text, limit).Whole? <==> |text| <= limit
    ensures BoundedText(text, limit).Cut? ==>
              var m := |BoundedText(text, limit).prefix|;
              && m < |text| && BoundedText(text, limit).prefix == Encoded(text)[..m]
              && (m == 0 || !IsContinuation(Encoded(text)[m]))
  {
  }

  /** A shown text can be encoded if it was cut, and otherwise if it holds no lone surrogate. */
  predicate CanBeShown(text: Utf8, limit: nat)
    requires limit > SUFFIX_BYTES
  {
    BoundedText(text, limit).Whole? ==> IsEncodable(text)
  }

  /** Whether the size of an audit that shows this sample can be computed. */
  predicate IsSizable(i: Issue) {
    CanBeShown(i.component, 128) && CanBeShown(i.reason, 64) && CanBeShown(i.errorType, 64)
    && CanBeShown(i.message, 256)
  }

  // ---- Sizes -----------------------------------------------------------------------------

  function UnitBytes(unit: char): nat {
    if unit == '"' || unit == '\\' || unit == '\n' || unit == '\r' || unit == '\t'
       || unit as int == 8 || unit as int == 12
    then 2
    else if unit as int < 0x20 then 6
    else 1
  }

  function EscapedBytes(text: Utf8): nat {
    if text == "" then 0 else EscapedBytes(text[..|text| - 1]) + UnitBytes(text[|text| - 1])
  }

  function StringBytes(d: Display): nat {
    match d
    case Whole(text) => 2 + EscapedBytes(text)
    case Cut(prefix, _) => 2 + EscapedBytes(prefix) + SUFFIX_BYTES
  }

  function FlagBytes(b: bool): nat {
    if b then 4 else 5
  }

  const HASH_BYTES := 66

  /** One member of an object with its name, colon and the comma or brace after it. */
  function MemberBytes(name: Utf8, value: nat): nat {
    |name| + 4 + value
  }

  /** The text of one sample; empty texts and absent causes are left out. */
  function SampleBytes(i: Issue): (n: nat)
    ensures n >= 1
  {
    var component, reason := BoundedText(i.component, 128), BoundedText(i.reason, 64);
    var errorType, message := BoundedText(i.errorType, 64), BoundedText(i.message, 256);
    var cut := component.Cut? || reason.Cut? || errorType.Cut? || message.Cut?;
    1 + MemberBytes("component", StringBytes(component)) + MemberBytes("reason", StringBytes(reason))
    + MemberBytes("digest", HASH_BYTES) + MemberBytes("truncated", FlagBytes(cut))
    + (if i.errorType == "" then 0 else MemberBytes("error_type", StringBytes(errorType)))
    + (if i.message == "" then 0
       else MemberBytes("message", StringBytes(message)) + MemberBytes("message_hash", HASH_BYTES))
    + (if i.cause.None? then 0 else MemberBytes("cause_digest", HASH_BYTES))
  }

  function SamplesBytes(samples: seq<Issue>): (n: nat)
    ensures n >= 2
  {
    if samples == [] then 2
    else SamplesBytes(samples[..|samples| - 1]) + SampleBytes(samples[|samples| - 1]) + if |samples| > 1 then 1 else 0
  }

  function NumberBytes(n: nat): nat {
    |Decimal(n)|
  }

  /** The part of the audit that depends on the samples shown. */
  datatype Audit = Audit(samples: seq<Issue>, sampleCount: nat, truncated: bool)

  function CountsBytes(total: nat, n: Counts): nat {
    MemberBytes("component_count", NumberBytes(total))
    + MemberBytes("successful_component_count", NumberBytes(n.successful))
    + MemberBytes("degraded_component_count", NumberBytes(n.degraded))
    + MemberBytes("failed_component_count", NumberBytes(n.failed))
    + MemberBytes("invalid_component_count", NumberBytes(n.invalid))
    + MemberBytes("unavailable_component_count", NumberBytes(n.unavailable))
  }

  function HeaderBytes(status: Status): nat {
    MemberBytes("schema", 2 + |SCHEMA|) + MemberBytes("status", 2 + |StatusText(status)|)
    + MemberBytes("issue_digest", HASH_BYTES) + MemberBytes("field_source_digest", HASH_BYTES)
    + MemberBytes("audit_digest", HASH_BYTES) + MemberBytes("audit_max_bytes", NumberBytes(AUDIT_MAX_BYTES))
  }

  function TotalsBytes(issueCount: nat, sampleLimit: nat, sourceCount: nat): nat {
    MemberBytes("issue_count", NumberBytes(issueCount)) + MemberBytes("issue_sample_limit", NumberBytes(sampleLimit))
    + MemberBytes("field_source_count", NumberBytes(sourceCount))
  }

  /** The members of an audit that do not depend on the samples shown, and its opening brace. */
  function FixedBytes<V>(p: Projection<V>): nat {
    1 + HeaderBytes(p.status) + CountsBytes(p.componentCount, p.counts)
    + TotalsBytes(p.issueCount, p.sampleLimit, |p.sources|)
  }

  function AuditBytes(fixed: nat, a: Audit): nat {
    fixed + MemberBytes("issue_samples", SamplesBytes(a.samples))
    + MemberBytes("issue_sample_count", NumberBytes(a.sampleCount))
    + MemberBytes("audit_truncated", FlagBytes(a.truncated))
  }

  /** An envelope that came from its validating constructor: built from its own fields it is itself. */
  ghost predicate IsConstructed<V>(p: Projection<V>) {
    Construct(p.fields, p.sources, p.status, p.componentCount, p.counts, p.samples, p.sampleLimit,
              Some(p.issueCount), Some(p.issueDigest), p.truncated) == Ok(p)
  }

  /** Whatever the constructor returns is such an envelope. */
  lemma ConstructIsStable<V>(fields: map<Utf8, V>, sources: map<Utf8, Utf8>, status: Status, total: nat,
                             n: Counts, samples: seq<Issue>, limit: nat, count: Option<nat>,
                             digest: Option<Digest>, truncated: bool)
    ensures var r := Construct(fields, sources, status, total, n, samples, limit, count, digest, truncated);
            r.Ok? ==> IsConstructed(r.value)
  {
  }

  /** What makes an envelope consistent with itself. */
  ghost predicate IsConsistent<V>(p: Projection<V>) {
    && p.sources.Keys <= p.fields.Keys
    && p.componentCount <= MAX_COMPONENTS
    && p.counts.successful + p.counts.degraded + p.counts.failed + p.counts.invalid + p.counts.unavailable
       == p.componentCount
    && p.issueCount == p.counts.degraded + p.counts.failed + p.counts.invalid
    && p.status == (if p.issueCount == 0 then StatusOk
                    else if p.counts.successful + p.counts.degraded > 0 then StatusDegraded else StatusError)
    && |p.samples| <= p.issueCount && |p.samples| <= p.sampleLimit <= MAX_SAMPLES
    && (p.issueCount > |p.samples| ==> p.truncated)
    && (p.issueCount == |p.samples| ==> p.issueDigest == IssuesDigest(p.samples))
    && p.auditDigest == AuditDigest(p.status, p.componentCount, p.counts, p.issueCount, p.issueDigest)
  }

  /** The constructor makes exactly the envelopes that are consistent. */
  lemma ConstructedIffConsistent<V>(p: Projection<V>)
    ensures IsConstructed(p) <==> IsConsistent(p)
  {
    if IsConsistent(p) {
      assert p.counts.Total() == p.componentCount && p.counts.Unhealthy() == p.issueCount;
    }
  }

  /** What the constructor accepts, given the issue count and digest or without them, and what it keeps. */
  lemma ConstructSucceedsIff<V>(fields: map<Utf8, V>, sources: map<Utf8, Utf8>, status: Status, total: nat,
                                n: Counts, samples: seq<Issue>, limit: nat, count: Option<nat>,
                                digest: Option<Digest>, truncated: bool)
    ensures var r := Construct(fields, sources, status, total, n, samples, limit, count, digest, truncated);
            var unhealthy := n.degraded + n.failed + n.invalid;
            && (r.Ok? <==>
                  && sources.Keys <= fields.Keys
                  && n.successful + unhealthy + n.unavailable == total <= MAX_COMPONENTS
                  && status == (if unhealthy == 0 then StatusOk
                                else if n.successful + n.degraded > 0 then StatusDegraded else StatusError)
                  && |samples| <= limit <= MAX_SAMPLES
                  && (if count.Some? then count.value else |samples|) == unhealthy >= |samples|
                  && (if unhealthy > |samples| then digest.Some? else digest in {None, Some(IssuesDigest(samples))}))
            && (r.Ok? ==>
                  && r.value.fields == fields && r.value.sources == sources && r.value.samples == samples
                  && r.value.counts == n && r.value.issueCount == unhealthy && r.value.sampleLimit == limit
                  && (digest.Some? ==> r.value.issueDigest == digest.value)
                  && (r.value.truncated <==> truncated || unhealthy > |samples|))
  {
    assert n.Total() == n.successful + n.Unhealthy() + n.unavailable;
  }

  function Pow10(d: nat): nat {
    if d == 0 then 1 else 10 * Pow10(d - 1)
  }

  lemma {:induction false} DigitsWithin(n: nat, d: nat)
    requires d >= 1 && n < Pow10(d)
    ensures NumberBytes(n) <= d
  {
    if n >= 10 {
      assert d > 1 by { assert Pow10(1) == 10 * Pow10(0); }
      DigitsWithin(n / 10, d - 1);
    }
  }

  lemma {:induction false} LongerNumbers(m: nat, n: nat)
    requires m <= n
    ensures NumberBytes(m) <= NumberBytes(n)
  {
    if m >= 10 {
      LongerNumbers(m / 10, n / 10);
    }
  }

  lemma Powers()
    ensures Pow10(2) == 100 && Pow10(10) == 10_000_000_000 && Pow10(19) == 10_000_000_000_000_000_000
  {
    assert Pow10(2) == 100 && Pow10(4) == 10_000;
    assert Pow10(6) == 1_000_000 && Pow10(8) == 100_000_000;
    assert Pow10(10) == 10_000_000_000 && Pow10(12) == 1_000_000_000_000;
    assert Pow10(14) == 100_000_000_000_000 && Pow10(16) == 10_000_000_000_000_000;
    assert Pow10(18) == 1_000_000_000_000_000_000;
  }

  lemma CountsAreShort(total: nat, n: Counts)
    requires InRange(total, n)
    ensures CountsBytes(total, n) <= 240
  {
    Powers();
    DigitsWithin(total, 10);
    DigitsWithin(n.successful, 10);
    DigitsWithin(n.degraded, 10);
    DigitsWithin(n.failed, 10);
    DigitsWithin(n.invalid, 10);
    DigitsWithin(n.unavailable, 10);
    assert |"component_count"| == 15 && |"successful_component_count"| == 26 && |"degraded_component_count"| == 24;
    assert |"failed_component_count"| == 22 && |"invalid_component_count"| == 23;
    assert |"unavailable_component_count"| == 27;
  }

  lemma HeaderIsShort(status: Status)
    ensures HeaderBytes(status) <= 400
  {
    Powers();
    DigitsWithin(AUDIT_MAX_BYTES, 10);
    assert |SCHEMA| == 31 && |StatusText(status)| <= 8 && |"schema"| == 6 && |"status"| == 6;
    assert |"issue_digest"| == 12 && |"field_source_digest"| == 19;
    assert |"audit_digest"| == 12 && |"audit_max_bytes"| == 15;
  }

  lemma TotalsAreShort(issueCount: nat, sampleLimit: nat, sourceCount: nat)
    requires issueCount <= MAX_COMPONENTS && sampleLimit <= MAX_SAMPLES && sourceCount < 0x8000_0000_0000_0000
    ensures TotalsBytes(issueCount, sampleLimit, sourceCount) <= 100
  {
    Powers();
    DigitsWithin(issueCount, 10);
    DigitsWithin(sampleLimit, 2);
    DigitsWithin(sourceCount, 19);
    assert |"issue_count"| == 11 && |"issue_sample_limit"| == 18 && |"field_source_count"| == 18;
  }

  /** Without samples an audit always fits, with room to spare. */
  lemma BaseFits<V>(p: Projection<V>)
    requires IsConstructed(p) && |p.sources| < 0x8000_0000_0000_0000
    ensures FixedBytes(p) <= 800
    ensures forall truncated: bool :: AuditBytes(FixedBytes(p), Audit([], 0, truncated)) <= 900
  {
    ConstructedIffConsistent(p);
    HeaderIsShort(p.status);
    CountsAreShort(p.componentCount, p.counts);
    TotalsAreShort(p.issueCount, p.sampleLimit, |p.sources|);
    assert |"issue_samples"| == 13 && |"issue_sample_count"| == 18 && |"audit_truncated"| == 15;
    assert NumberBytes(0) == 1;
  }

  // ---- The longest prefix of samples that fits -------------------------------------------

  /** The audit that shows the first `k` samples. */
  function Showing<V>(p: Projection<V>, k: nat): Audit
    requires k <= |p.samples|
  {
    Audit(p.samples[..k], k, p.truncated || p.issueCount > k)
  }

  predicate Fits(fixed: nat, a: Audit) {
    AuditBytes(fixed, a) <= AUDIT_MAX_BYTES
  }

  lemma OneMoreSampleIsLonger<V>(p: Projection<V>, k: nat, fixed: nat)
    requires k < |p.samples|
    ensures AuditBytes(fixed, Showing(p, k)) < AuditBytes(fixed, Showing(p, k + 1))
  {
    assert p.samples[..k + 1][..k] == p.samples[..k];
    LongerNumbers(k, k + 1);
  }

  /** Under `size`, each further sample makes the audit longer. */
  ghost predicate Grows<V(!new)>(p: Projection<V>, size: Audit -> nat) {
    forall k | 0 <= k < |p.samples| :: size(Showing(p, k)) < size(Showing(p, k + 1))
  }

  lemma {:induction false} MoreSamplesAreLonger<V(!new)>(p: Projection<V>, k: nat, m: nat, size: Audit -> nat)
    requires k <= m <= |p.samples| && Grows(p, size)
    ensures size(Showing(p, k)) <= size(Showing(p, m))
  {
    if k < m {
      MoreSamplesAreLonger(p, k, m - 1, size);
      assert size(Showing(p, m - 1)) < size(Showing(p, m - 1 + 1));
    }
  }

  /** The loop meets a sample whose text cannot be encoded, since those before it can and fit. */
  ghost predicate MeetsUnsizable<V(!new)>(p: Projection<V>, size: Audit -> nat) {
    exists k | 0 <= k < |p.samples| ::
      && !IsSizable(p.samples[k]) && (forall j | 0 <= j < k :: IsSizable(p.samples[j]))
      && size(Showing(p, k)) <= AUDIT_MAX_BYTES
  }

  datatype AuditError = UnicodeEncodeError

  /**
   The audit shows the longest prefix of the samples that fits the budget.  It always fits when the
   loop ends, so dropping samples afterwards and the final error are never needed.  Computing it
   raises exactly when a sample up to there shows a lone surrogate.
   */
  method AsAudit<V(!new)>(p: Projection<V>) returns (r: Result<Audit, AuditError>)
    requires IsConstructed(p) && |p.sources| < 0x8000_0000_0000_0000
    ensures r.Err? <==> MeetsUnsizable(p, a => AuditBytes(FixedBytes(p), a))
    ensures r.Ok? ==>
              && Fits(FixedBytes(p), r.value) && |r.value.samples| <= |p.samples|
              && r.value == Showing(p, |r.value.samples|)
              && (forall m | |r.value.samples| < m <= |p.samples| :: !Fits(FixedBytes(p), Showing(p, m)))
              && (forall i <- r.value.samples :: IsSizable(i))
  {
    ConstructedIffConsistent(p);
    BaseFits(p);
    var fixed := FixedBytes(p);
    forall k | 0 <= k < |p.samples| ensures AuditBytes(fixed, Showing(p, k)) < AuditBytes(fixed, Showing(p, k + 1)) {
      OneMoreSampleIsLonger(p, k, fixed);
    }
    r := AddSamples(p, a => AuditBytes(fixed, a));
  }

  method AddSamples<V(!new)>(p: Projection<V>, size: Audit -> nat) returns (r: Result<Audit, AuditError>)
    requires |p.samples| <= p.issueCount && Grows(p, size)
    requires size(Audit([], 0, true)) <= AUDIT_MAX_BYTES && size(Audit([], 0, false)) <= AUDIT_MAX_BYTES
    ensures r.Err? <==> MeetsUnsizable(p, size)
    ensures r.Ok? ==>
              && size(r.value) <= AUDIT_MAX_BYTES && |r.value.samples| <= |p.samples|
              && r.value == Showing(p, |r.value.samples|)
              && (forall m | |r.value.samples| < m <= |p.samples| :: size(Showing(p, m)) > AUDIT_MAX_BYTES)
              && (forall i <- r.value.samples :: IsSizable(i))
  {
    var audit := Audit([], 0, p.truncated);
    var k := 0;
    while k < |p.samples|
      invariant k <= |p.samples| && audit.samples == p.samples[..k] && audit.sampleCount == k
      invariant size(audit) <= AUDIT_MAX_BYTES
      invariant if k == 0 then audit.truncated == p.truncated else audit == Showing(p, k)
      invariant forall j | 0 <= j < k :: IsSizable(p.samples[j])
    {
      var candidate := Audit(audit.samples + [p.samples[k]], k + 1, p.truncated || p.issueCount > k + 1);
      assert candidate.samples == p.samples[..k + 1];
      if !IsSizable(p.samples[k]) {
        assert Showing(p, 0) == Audit([], 0, Showing(p, 0).truncated);
        assert size(Showing(p, k)) <= AUDIT_MAX_BYTES;
        return Err(UnicodeEncodeError);
      }
      if size(candidate) > AUDIT_MAX_BYTES {
        audit := audit.(truncated := true);
        forall m | k < m <= |p.samples| ensures size(Showing(p, m)) > AUDIT_MAX_BYTES {
          MoreSamplesAreLonger(p, k + 1, m, size);
        }
        break;
      }
      audit := candidate;
      k := k + 1;
    }
    audit := audit.(sampleCount := |audit.samples|, truncated := audit.truncated || p.issueCount > |audit.samples|);
    r := Ok(audit);
  }
}
