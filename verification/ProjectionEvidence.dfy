/**
 The audit digest as a fingerprint of a whole tree of aggregations: each issue hashes the audit digest
 of the level that caused it, so the digest at the root fixes everything below.
 */
module ProjectionEvidence {
  import opened Outcomes
  import opened Digests
  import opened RuntimeProjections

  /** One level: its status and counts, and its issues with the level that caused each of them. */
  datatype Evidence = Evidence(status: Status, counts: Counts, findings: seq<Finding>)

  datatype Finding = Finding(component: Utf8, reason: Utf8, errorType: Utf8, message: Utf8, cause: Cause)

  datatype Cause = NoCause | CausedBy(evidence: Evidence)

  function EvidenceDigest(e: Evidence): Digest
    decreases e, 2
  {
    AuditDigest(e.status, e.counts.Total(), e.counts, |e.findings|, IssuesDigest(FindingIssues(e.findings)))
  }

  function FindingIssue(f: Finding): Issue
    decreases f, 1
  {
    Issue(f.component, f.reason, f.errorType, f.message,
          if f.cause.NoCause? then None else Some(EvidenceDigest(f.cause.evidence)))
  }

  function FindingIssues(fs: seq<Finding>): (issues: seq<Issue>)
    ensures |issues| == |fs| && forall i | 0 <= i < |fs| :: issues[i] == FindingIssue(fs[i])
    decreases fs, 1
  {
    if fs == [] then [] else FindingIssues(fs[..|fs| - 1]) + [FindingIssue(fs[|fs| - 1])]
  }

  /** Counts are within the protocol limit and every text is shorter than its length field allows. */
  predicate Bounded(e: Evidence)
    decreases e, 1
  {
    e.counts.Total() <= MAX_COMPONENTS && |e.findings| <= MAX_COMPONENTS
    && forall i | 0 <= i < |e.findings| :: FindingBounded(e.findings[i])
  }

  predicate FindingBounded(f: Finding)
    decreases f, 0
  {
    && |f.component| < FRAME_LIMIT && |f.reason| < FRAME_LIMIT && |f.errorType| < FRAME_LIMIT
    && |f.message| < FRAME_LIMIT && (f.cause.CausedBy? ==> Bounded(f.cause.evidence))
  }

  lemma {:induction false} DecimalIsShort(n: nat)
    ensures |Decimal(n)| <= n + 1
  {
    if n >= 10 {
      DecimalIsShort(n / 10);
    }
  }

  lemma DecimalFits(n: nat)
    requires n <= MAX_COMPONENTS
    ensures Size(Octets(Decimal(n))) < FRAME_LIMIT
  {
    DecimalIsShort(n);
    OctetsSize(Decimal(n));
  }

  function AuditParts(status: Status, total: nat, n: Counts, count: nat, digest: Digest): seq<seq<Atom>> {
    [Octets(SCHEMA), Octets(StatusText(status))] + CountParts(total, n, count) + [[Hex(digest)]]
  }

  lemma CountPartsFit(total: nat, n: Counts, count: nat)
    requires InRange(total, n) && count <= MAX_COMPONENTS
    ensures Fit(CountParts(total, n, count))
  {
    DecimalFits(total);
    DecimalFits(n.successful);
    DecimalFits(n.degraded);
    DecimalFits(n.failed);
    DecimalFits(n.invalid);
    DecimalFits(n.unavailable);
    DecimalFits(count);
  }

  lemma FitsJoin(a: seq<seq<Atom>>, b: seq<seq<Atom>>)
    requires Fit(a) && Fit(b)
    ensures Fit(a + b)
  {
  }

  lemma AuditPartsFit(status: Status, total: nat, n: Counts, count: nat, digest: Digest)
    requires InRange(total, n) && count <= MAX_COMPONENTS
    ensures Fit(AuditParts(status, total, n, count, digest))
  {
    OctetsSize(SCHEMA);
    OctetsSize(StatusText(status));
    CountPartsFit(total, n, count);
    assert [Hex(digest)][1..] == [];
    var head := [Octets(SCHEMA), Octets(StatusText(status))];
    var counts, tail := CountParts(total, n, count), [[Hex(digest)]];
    FitsJoin(head, counts);
    FitsJoin(head + counts, tail);
  }

  lemma DecimalPart(m: nat, n: nat)
    requires Octets(Decimal(m)) == Octets(Decimal(n))
    ensures m == n
  {
    OctetsAreInjective(Decimal(m), Decimal(n));
    DecimalIsInjective(m, n);
  }

  lemma StatusPart(s: Status, t: Status)
    requires Octets(StatusText(s)) == Octets(StatusText(t))
    ensures s == t
  {
    OctetsAreInjective(StatusText(s), StatusText(t));
    assert |"ok"| == 2 && |"degraded"| == 8 && |"error"| == 5;
  }

  /** The audit digest determines status, all counts, the number of issues and their digest. */
  lemma AuditDigestIsInjective(s: Status, m: Counts, c: nat, d: Digest, t: Status, n: Counts, k: nat, e: Digest)
    requires InRange(m.Total(), m) && InRange(n.Total(), n) && c <= MAX_COMPONENTS && k <= MAX_COMPONENTS
    requires AuditDigest(s, m.Total(), m, c, d) == AuditDigest(t, n.Total(), n, k, e)
    ensures s == t && m == n && c == k && d == e
  {
    AuditPartsFit(s, m.Total(), m, c, d);
    AuditPartsFit(t, n.Total(), n, k, e);
    var p, q := AuditParts(s, m.Total(), m, c, d), AuditParts(t, n.Total(), n, k, e);
    StreamIsInjective(p, q);
    assert p[1] == q[1] && p[3] == q[3] && p[4] == q[4] && p[5] == q[5] && p[6] == q[6] && p[7] == q[7]
           && p[8] == q[8] && p[9] == q[9];
    StatusPart(s, t);
    DecimalPart(m.successful, n.successful);
    DecimalPart(m.degraded, n.degraded);
    DecimalPart(m.failed, n.failed);
    DecimalPart(m.invalid, n.invalid);
    DecimalPart(m.unavailable, n.unavailable);
    DecimalPart(c, k);
    assert p[9] == [Hex(d)] && q[9] == [Hex(e)] && p[9][0] == q[9][0];
  }

  /** The evidence with all texts as the bytes that are hashed. */
  function EncodedEvidence(e: Evidence): Evidence
    decreases e, 1
  {
    e.(findings := seq(|e.findings|, i requires 0 <= i < |e.findings| => EncodedFinding(e.findings[i])))
  }

  function EncodedFinding(f: Finding): Finding
    decreases f, 0
  {
    Finding(Encoded(f.component), Encoded(f.reason), Encoded(f.errorType), Encoded(f.message),
            if f.cause.NoCause? then NoCause else CausedBy(EncodedEvidence(f.cause.evidence)))
  }

  /** Equal audit digests mean the same evidence at every level: status, counts, bytes of issues, causes. */
  lemma {:induction false} AuditDigestFixesTheTree(a: Evidence, b: Evidence)
    requires Bounded(a) && Bounded(b) && EvidenceDigest(a) == EvidenceDigest(b)
    ensures EncodedEvidence(a) == EncodedEvidence(b)
    decreases a, 1
  {
    var xs, ys := FindingIssues(a.findings), FindingIssues(b.findings);
    AuditDigestIsInjective(a.status, a.counts, |a.findings|, IssuesDigest(xs),
                           b.status, b.counts, |b.findings|, IssuesDigest(ys));
    assert forall i | 0 <= i < |xs| :: FindingBounded(a.findings[i]) && TextsFit(xs[i]);
    assert forall i | 0 <= i < |ys| :: FindingBounded(b.findings[i]) && TextsFit(ys[i]);
    IssuesDigestCoversAll(xs, ys);
    forall i | 0 <= i < |a.findings| ensures EncodedFinding(a.findings[i]) == EncodedFinding(b.findings[i]) {
      assert EncodedIssue(xs[i]) == EncodedIssue(ys[i]);
      FindingsAgree(a.findings[i], b.findings[i]);
    }
  }

  lemma {:induction false} FindingsAgree(f: Finding, g: Finding)
    requires FindingBounded(f) && FindingBounded(g)
    requires EncodedIssue(FindingIssue(f)) == EncodedIssue(FindingIssue(g))
    ensures EncodedFinding(f) == EncodedFinding(g)
    decreases f, 0
  {
    if f.cause.CausedBy? && g.cause.CausedBy? {
      AuditDigestFixesTheTree(f.cause.evidence, g.cause.evidence);
    }
  }
}
